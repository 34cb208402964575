/** YAML frontmatter: the `---` fence split shared by MarkdownTagger.parse_markdown_file
    (md_tagger.py:103-120) and parse_markdown_with_frontmatter
    (markdown_fixer.py:66-78), the file layout written by save_markdown_file
    (md_tagger.py:308), and update_frontmatter_with_tags (md_tagger.py:249-271).
    YAML itself is opaque: loading is a parameter, and a loaded document is an
    ordered list of fields. */
module Frontmatter {
  import opened Strings
  import opened Dedup

  const Dashes: string := "---"

  // ---------------------------------------------------------------------------
  // The fence split: `content.startswith('---')` and `content.split('---', 2)`

  /** The text between the opening and the closing fence, and everything after
      the closing fence. */
  datatype Fence = Fence(inner: string, rest: string)

  /** The fence of a document, when it starts with `---` and has a second `---`
      after that one. */
  function FenceSplit(content: string): (r: Option<Fence>)
    ensures r.None? <==> !StartsWith(content, Dashes) || forall j :: 3 <= j ==> !OccursAt(content, Dashes, j)
    ensures r.Some? ==> content == Dashes + r.value.inner + Dashes + r.value.rest
    ensures r.Some? ==> forall j :: 3 <= j < 3 + |r.value.inner| ==> !OccursAt(content, Dashes, j)
  {
    if !StartsWith(content, Dashes) then None
    else match FindFrom(content, Dashes, 3)
      case None => None
      case Some(j) =>
        var f := Fence(content[3..j], content[j + 3..]);
        assert content == content[..3] + f.inner + content[j..j + 3] + f.rest;
        Some(f)
  }

  /** The fenced text contains no `---` of its own. */
  lemma InnerHasNoDashes(content: string)
    requires FenceSplit(content).Some?
    ensures !Contains(FenceSplit(content).value.inner, Dashes)
  {
    var f := FenceSplit(content).value;
    assert content[3..3 + |f.inner|] == f.inner;
    forall k | 0 <= k ensures !OccursAt(f.inner, Dashes, k) {
      if k + 3 <= |f.inner| {
        OccursInPiece(content, 3, f.inner, Dashes, 3 + k);
      }
    }
  }

  /** The fence split is Python's `split('---', 2)`: there are at least three
      parts exactly when a fence is found, and then the second part is the fenced
      text and the third part (the unsplit remainder) is everything after it. */
  lemma FenceSplitIsPythonSplit(content: string)
    requires StartsWith(content, Dashes)
    ensures FenceSplit(content).Some? <==> |Split(content, Dashes)| >= 3
    ensures FenceSplit(content).Some? ==>
      var parts := Split(content, Dashes);
      FenceSplit(content).value == Fence(parts[1], Join(parts[2..], Dashes))
  {
    assert OccursAt(content, Dashes, 0);
    assert Find(content, Dashes) == Some(0);
    var tail := content[3..];
    SplitTail(content, Dashes);
    assert Split(content, Dashes)[1..] == Split(tail, Dashes);
    FindInSuffix(content, Dashes, 3);
    SplitHead(tail, Dashes);
    match Find(tail, Dashes)
    case None =>
      assert FindFrom(content, Dashes, 3).None?;
    case Some(k) =>
      var j := FindFrom(content, Dashes, 3).value;
      assert j == 3 + k;
      SplitTail(tail, Dashes);
      assert Split(content, Dashes)[2..] == Split(tail[k + 3..], Dashes);
      assert tail[k + 3..] == content[j + 3..];
      assert tail[..k] == content[3..j];
  }

  // ---------------------------------------------------------------------------
  // Fields

  /** A YAML value as far as the tag update cares: a string, a list of strings,
      a mapping whose keys are strings (only its keys, in document order), or
      anything else: a number, a boolean, a null, or a list or mapping holding
      something other than strings. */
  datatype Value = Text(text: string) | TextList(items: seq<string>) | KeyMap(keys: seq<string>) | Other

  datatype Field = Field(key: string, value: Value)

  /** A loaded YAML mapping, in document order. */
  type Fields = seq<Field>

  function FieldKeys(fm: Fields): (ks: seq<string>)
    ensures |ks| == |fm|
    ensures forall i :: 0 <= i < |fm| ==> ks[i] == fm[i].key
    decreases |fm|
  {
    if fm == [] then [] else [fm[0].key] + FieldKeys(fm[1..])
  }

  /** A mapping: no key twice. */
  predicate WellFormed(fm: Fields) {
    forall i, j :: 0 <= i < j < |fm| ==> fm[i].key != fm[j].key
  }

  /** `frontmatter.get(key)`. */
  function Lookup(fm: Fields, key: string): (r: Option<Value>)
    ensures r.None? <==> key !in FieldKeys(fm)
    ensures r.Some? ==> Field(key, r.value) in fm
    decreases |fm|
  {
    if fm == [] then None
    else if fm[0].key == key then Some(fm[0].value)
    else
      assert FieldKeys(fm) == [fm[0].key] + FieldKeys(fm[1..]);
      Lookup(fm[1..], key)
  }

  /** `frontmatter[key] = v`: an existing key keeps its place, a new key goes last. */
  function Put(fm: Fields, key: string, v: Value): (r: Fields)
    ensures key in FieldKeys(fm) ==> FieldKeys(r) == FieldKeys(fm)
    ensures key !in FieldKeys(fm) ==> FieldKeys(r) == FieldKeys(fm) + [key]
    decreases |fm|
  {
    if fm == [] then [Field(key, v)]
    else if fm[0].key == key then [Field(key, v)] + fm[1..]
    else [fm[0]] + Put(fm[1..], key, v)
  }

  /** Writing a key keeps the fields a mapping. */
  lemma PutWellFormed(fm: Fields, key: string, v: Value)
    requires WellFormed(fm)
    ensures WellFormed(Put(fm, key, v))
  {
    var r := Put(fm, key, v);
    var ks := FieldKeys(r);
    assert WellFormed(r) by {
      forall i, j | 0 <= i < j < |r| ensures r[i].key != r[j].key {
        if key in FieldKeys(fm) {
          assert ks[i] == FieldKeys(fm)[i] && ks[j] == FieldKeys(fm)[j];
        } else {
          assert ks[i] == (FieldKeys(fm) + [key])[i] && ks[j] == (FieldKeys(fm) + [key])[j];
          if j == |fm| {
            assert FieldKeys(fm)[i] in FieldKeys(fm);
          }
        }
      }
    }
  }

  /** After writing, the key holds the new value and every other key its old one. */
  lemma {:induction false} PutLookup(fm: Fields, key: string, v: Value)
    ensures Lookup(Put(fm, key, v), key) == Some(v)
    ensures forall k :: k != key ==> Lookup(Put(fm, key, v), k) == Lookup(fm, k)
    decreases |fm|
  {
    if fm != [] && fm[0].key != key {
      PutLookup(fm[1..], key, v);
      var r := Put(fm, key, v);
      assert r[0] == fm[0] && r[1..] == Put(fm[1..], key, v);
      assert Lookup(r, key) == Lookup(r[1..], key);
      forall k | k != key ensures Lookup(r, k) == Lookup(fm, k) {
        if k != fm[0].key {
          assert Lookup(r, k) == Lookup(r[1..], k);
        }
      }
    } else if fm != [] {
      var r := Put(fm, key, v);
      assert r[1..] == fm[1..];
    }
  }

  // ---------------------------------------------------------------------------
  // MarkdownTagger.parse_markdown_file (md_tagger.py:91-126)

  /** What `yaml.safe_load` makes of the fenced text. */
  datatype Loaded = Mapping(fields: Fields) | Null | YamlError

  datatype TaggerDocument = TaggerDocument(frontmatter: Option<Fields>, body: string)

  /** `file` is the file's text, or None when reading fails. A fenced document
      gives its loaded fields (none for an empty or unreadable YAML) and its
      stripped body; any other document gives no fields and the text itself. */
  function ParseMarkdownFile(file: Option<string>, load: string -> Loaded): (d: TaggerDocument)
    ensures file.None? ==> d == TaggerDocument(None, "")
    ensures file.Some? && FenceSplit(file.value).None? ==> d == TaggerDocument(Some([]), file.value)
    ensures file.Some? && FenceSplit(file.value).Some? ==>
      var f := FenceSplit(file.value).value;
      && d.body == Strip(f.rest)
      && d.frontmatter == Some(if load(f.inner).Mapping? then load(f.inner).fields else [])
  {
    match file
    case None => TaggerDocument(None, "")
    case Some(content) =>
      match FenceSplit(content)
      case None => TaggerDocument(Some([]), content)
      case Some(f) =>
        var fields := match load(f.inner)
          case Mapping(fs) => fs
          case Null => []
          case YamlError => [];
        TaggerDocument(Some(fields), Strip(f.rest))
  }

  /** The text save_markdown_file writes for a dumped YAML text and a body. */
  function SavedTaggedFile(yaml: string, body: string): string {
    Dashes + "\n" + yaml + Dashes + "\n\n" + body
  }

  /** The fence is determined by the first `---` after the opening one. */
  lemma FenceAt(content: string, n: nat)
    requires StartsWith(content, Dashes)
    requires OccursAt(content, Dashes, 3 + n)
    requires forall k :: 3 <= k < 3 + n ==> !OccursAt(content, Dashes, k)
    ensures FenceSplit(content) == Some(Fence(content[3..3 + n], content[3 + n + 3..]))
  {
    assert FindFrom(content, Dashes, 3) == Some(3 + n);
  }

  /** No `---` starts inside a fenced text that has none and does not end in `-`. */
  lemma NoDashesInside(yaml: string, rest: string)
    requires !Contains(yaml, Dashes)
    requires yaml == [] || yaml[|yaml| - 1] != '-'
    ensures forall k :: 3 <= k < 3 + |yaml| ==> !OccursAt(Dashes + yaml + Dashes + rest, Dashes, k)
  {
    var content := Dashes + yaml + Dashes + rest;
    var j := 3 + |yaml|;
    assert content[3..j] == yaml;
    forall k | 3 <= k < j ensures !OccursAt(content, Dashes, k) {
      if k + 3 <= j {
        OccursInPiece(content, 3, yaml, Dashes, k);
      } else {
        assert content[j - 1] == yaml[|yaml| - 1];
        assert k + 3 <= |content| ==> content[k..k + 3][j - 1 - k] == content[j - 1];
      }
    }
  }

  /** A document built from a fence around a text without `---` (and not
      ending in `-`) splits back into that text and the remainder. */
  lemma FenceAround(yaml: string, rest: string)
    requires !Contains(yaml, Dashes)
    requires yaml == [] || yaml[|yaml| - 1] != '-'
    ensures FenceSplit(Dashes + yaml + Dashes + rest) == Some(Fence(yaml, rest))
  {
    var content := Dashes + yaml + Dashes + rest;
    var j := 3 + |yaml|;
    assert content[j..j + 3] == Dashes;
    assert content[..3] == Dashes;
    NoDashesInside(yaml, rest);
    FenceAt(content, |yaml|);
    assert content[3..j] == yaml;
    assert content[j + 3..] == rest;
  }

  /** Reading back a saved file hands the loader exactly the dumped text (after
      its leading newline) and gives back the stripped body, provided the
      dumped text has no `---` and does not end in `-`. */
  lemma SavedFileParses(yaml: string, body: string, load: string -> Loaded)
    requires !Contains(yaml, Dashes)
    requires yaml == [] || yaml[|yaml| - 1] != '-'
    ensures var d := ParseMarkdownFile(Some(SavedTaggedFile(yaml, body)), load);
      && d.body == Strip(body)
      && d.frontmatter == Some(if load("\n" + yaml).Mapping? then load("\n" + yaml).fields else [])
  {
    var inner := "\n" + yaml;
    forall k | 0 <= k ensures !OccursAt(inner, Dashes, k) {
      if 1 <= k {
        assert !OccursAt(yaml, Dashes, k - 1);
        assert k + 3 <= |inner| ==> inner[k..k + 3] == yaml[k - 1..k + 2];
      } else {
        assert inner[0] == '\n';
      }
    }
    assert SavedTaggedFile(yaml, body) == Dashes + inner + Dashes + ("\n\n" + body);
    FenceAround(inner, "\n\n" + body);
    StripBlankPrefix("\n\n", body);
  }

  // ---------------------------------------------------------------------------
  // parse_markdown_with_frontmatter (markdown_fixer.py:66-78)

  datatype FixerDocument = FixerDocument(frontmatter: Option<string>, body: string)

  /** The raw frontmatter, stripped, and the body with its leading newlines
      removed; a document without a complete fence comes back whole. */
  function ParseWithFrontmatter(content: string): (d: FixerDocument)
    ensures FenceSplit(content).None? ==> d == FixerDocument(None, content)
    ensures FenceSplit(content).Some? ==> d.frontmatter.Some?
    ensures d.frontmatter.Some? ==>
      var f := FenceSplit(content).value;
      && d.frontmatter.value == Strip(f.inner)
      && !Contains(d.frontmatter.value, Dashes)
      && |d.body| <= |f.rest| && d.body == f.rest[|f.rest| - |d.body|..]
      && (forall i :: 0 <= i < |f.rest| - |d.body| ==> f.rest[i] == '\n')
      && (d.body == [] || d.body[0] != '\n')
  {
    match FenceSplit(content)
    case None => FixerDocument(None, content)
    case Some(f) =>
      InnerHasNoDashes(content);
      FenceParts(f)
  }

  /** The fixer's reading of a found fence. */
  function FenceParts(f: Fence): (d: FixerDocument)
    requires !Contains(f.inner, Dashes)
    ensures d.frontmatter == Some(Strip(f.inner)) && !Contains(Strip(f.inner), Dashes)
    ensures |d.body| <= |f.rest| && d.body == f.rest[|f.rest| - |d.body|..]
    ensures forall i :: 0 <= i < |f.rest| - |d.body| ==> f.rest[i] == '\n'
    ensures d.body == [] || d.body[0] != '\n'
  {
    StripNoNewOccurrence(f.inner, Dashes);
    FixerDocument(Some(Strip(f.inner)), LStripChar(f.rest, '\n'))
  }

  /** The fixer's body is a suffix of the document. */
  lemma FixerBodyIsSuffix(content: string)
    ensures var body := ParseWithFrontmatter(content).body;
      |body| <= |content| && body == content[|content| - |body|..]
  {
    match FenceSplit(content)
    case None =>
    case Some(f) =>
      var body := LStripChar(f.rest, '\n');
      assert ParseWithFrontmatter(content).body == body;
      var start := 3 + |f.inner| + 3;
      var rest := content[start..];
      assert rest == f.rest;
      assert |content| - |body| == start + (|rest| - |body|);
      assert rest[|rest| - |body|..] == content[|content| - |body|..];
  }

  /** A document written with a fence and read back by the fixer gives back
      the stripped frontmatter text and the body without leading newlines. */
  lemma FixerReadsFence(yaml: string, body: string)
    requires !Contains(yaml, Dashes)
    requires yaml == [] || yaml[|yaml| - 1] != '-'
    ensures ParseWithFrontmatter(Dashes + yaml + Dashes + body)
      == FixerDocument(Some(Strip(yaml)), LStripChar(body, '\n'))
  {
    FenceAround(yaml, body);
  }

  // ---------------------------------------------------------------------------
  // MarkdownTagger.update_frontmatter_with_tags (md_tagger.py:245-271)

  const TagsKey: string := "tags"

  /** The strings `list(frontmatter.get('tags', []))` yields once a string is
      wrapped in a list: a missing key gives none and a mapping gives its keys.
      None where the update raises instead: `list(...)` of a scalar raises
      TypeError, and an item that is not a string raises AttributeError at
      `tag.lower()` (md_tagger.py:264). */
  function ExistingTags(v: Option<Value>): (r: Option<seq<string>>)
    ensures v.None? ==> r == Some([])
    ensures v.Some? && v.value.Text? ==> r == Some([v.value.text])
    ensures v.Some? && v.value.TextList? ==> r == Some(v.value.items)
    ensures v.Some? && v.value.KeyMap? ==> r == Some(v.value.keys)
    ensures r.None? <==> v == Some(Other)
  {
    match v
    case None => Some([])
    case Some(Text(s)) => Some([s])
    case Some(TextList(items)) => Some(items)
    case Some(KeyMap(keys)) => Some(keys)
    case Some(Other) => None
  }

  /** The updated fields, or the exception the update raises. */
  datatype Outcome = Updated(fields: Fields) | Raised

  /** Existing tags followed by the new ones, de-duplicated case-insensitively
      with the first spelling kept, stored under `tags`; an empty or missing
      frontmatter starts from an empty mapping. */
  function UpdateFrontmatterWithTags(frontmatter: Option<Fields>, tags: seq<string>): (r: Outcome)
    requires frontmatter.Some? ==> WellFormed(frontmatter.value)
    ensures var base := if frontmatter.Some? then frontmatter.value else [];
      && (r.Raised? <==> Lookup(base, TagsKey) == Some(Other))
      && (r.Updated? ==> WellFormed(r.fields))
      && (r.Updated? ==> exists existing ::
            ExistingTags(Lookup(base, TagsKey)) == Some(existing)
            && Lookup(r.fields, TagsKey) == Some(TextList(Dedup.Dedup(existing + tags))))
      && (r.Updated? ==> forall k :: k != TagsKey ==> Lookup(r.fields, k) == Lookup(base, k))
      && (r.Updated? && TagsKey in FieldKeys(base) ==> FieldKeys(r.fields) == FieldKeys(base))
      && (r.Updated? && TagsKey !in FieldKeys(base) ==> FieldKeys(r.fields) == FieldKeys(base) + [TagsKey])
  {
    var base := if frontmatter.Some? then frontmatter.value else [];
    match ExistingTags(Lookup(base, TagsKey))
    case None => Raised
    case Some(existing) =>
      var merged := TextList(Dedup.Dedup(existing + tags));
      PutWellFormed(base, TagsKey, merged);
      PutLookup(base, TagsKey, merged);
      Updated(Put(base, TagsKey, merged))
  }

  /** Adding the same tags a second time changes nothing. */
  lemma UpdateIdempotent(frontmatter: Option<Fields>, tags: seq<string>)
    requires frontmatter.Some? ==> WellFormed(frontmatter.value)
    requires UpdateFrontmatterWithTags(frontmatter, tags).Updated?
    ensures var once := UpdateFrontmatterWithTags(frontmatter, tags).fields;
      UpdateFrontmatterWithTags(Some(once), tags) == Updated(once)
  {
    var base := if frontmatter.Some? then frontmatter.value else [];
    var existing := ExistingTags(Lookup(base, TagsKey)).value;
    var merged := Dedup.Dedup(existing + tags);
    var once := UpdateFrontmatterWithTags(frontmatter, tags).fields;
    assert Lookup(once, TagsKey) == Some(TextList(merged));
    KeysAppend(existing, tags);
    DedupAbsorbs(existing + tags, tags);
    var twice := Put(once, TagsKey, TextList(merged));
    PutSame(once, TagsKey, TextList(merged));
  }

  /** Writing the value a key already holds changes nothing. */
  lemma {:induction false} PutSame(fm: Fields, key: string, v: Value)
    requires WellFormed(fm) && Lookup(fm, key) == Some(v)
    ensures Put(fm, key, v) == fm
    decreases |fm|
  {
    if fm[0].key != key {
      assert FieldKeys(fm) == [fm[0].key] + FieldKeys(fm[1..]);
      assert Lookup(fm[1..], key) == Some(v);
      assert WellFormed(fm[1..]) by {
        forall i, j | 0 <= i < j < |fm| - 1 ensures fm[1..][i].key != fm[1..][j].key {
          assert fm[i + 1].key != fm[j + 1].key;
        }
      }
      PutSame(fm[1..], key, v);
    }
  }
}
