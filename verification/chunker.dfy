/** MarkdownTagger.split_into_chunks (md_tagger.py:38-88): a greedy packer of
    lines into buffers under a token budget, with a fallback that re-packs an
    overlong line sentence by sentence. The tokenizer is a parameter `count`
    about which nothing is assumed. */
module Chunker {
  import opened Strings

  type Counter = string -> nat

  /** Packing state: `closed` holds every buffer that reached a flush point,
      in order, including the blank ones that are then discarded; `open` is
      the buffer being filled. */
  datatype Packer = Packer(closed: seq<string>, open: string)

  /** Number of leading '#' characters. */
  function HashRun(s: string): (k: nat)
    ensures k <= |s|
    ensures forall i :: 0 <= i < k ==> s[i] == '#'
    ensures k == |s| || s[k] != '#'
    decreases |s|
  {
    if s != [] && s[0] == '#' then 1 + HashRun(s[1..]) else 0
  }

  /** The heading pattern `^(#{1,6})\s+(.+)$` on a line without '\n'. */
  predicate IsHeading(line: string) {
    var k := HashRun(line);
    1 <= k <= 6 && k + 2 <= |line| && IsSpace(line[k])
  }

  /** One sentence of the fallback split (md_tagger.py:75-82). */
  function SentenceStep(p: Packer, sentence: string, budget: int, count: Counter): Packer {
    var candidate := p.open + sentence + ". ";
    if count(candidate) <= budget then Packer(p.closed, candidate)
    else Packer(p.closed + [p.open], sentence + ". ")
  }

  function PackSentences(p: Packer, sentences: seq<string>, budget: int, count: Counter): Packer
    decreases |sentences|
  {
    if sentences == [] then p
    else PackSentences(SentenceStep(p, sentences[0], budget, count), sentences[1..], budget, count)
  }

  /** One line of the main loop (md_tagger.py:51-82). Both arms of the heading
      test start the new buffer with the line itself, so the test has no effect. */
  function LineStep(p: Packer, line: string, budget: int, count: Counter): Packer {
    var candidate := p.open + line + "\n";
    if count(candidate) <= budget then Packer(p.closed, candidate)
    else
      var restart := if IsHeading(line) then line + "\n" else line + "\n";
      if count(restart) <= budget then Packer(p.closed + [p.open], restart)
      else PackSentences(Packer(p.closed + [p.open], ""), Split(line, ". "), budget, count)
  }

  function PackLines(p: Packer, lines: seq<string>, budget: int, count: Counter): Packer
    decreases |lines|
  {
    if lines == [] then p
    else PackLines(LineStep(p, lines[0], budget, count), lines[1..], budget, count)
  }

  /** Every buffer that reaches a flush point, the final one included. */
  function Buffers(text: string, budget: int, count: Counter): seq<string> {
    var p := PackLines(Packer([], ""), Split(text, "\n"), budget, count);
    p.closed + [p.open]
  }

  /** The buffers that `if current_chunk.strip():` lets through. */
  function NonBlank(bs: seq<string>): (r: seq<string>)
    ensures IsSubsequence(r, bs)
    ensures forall b :: b in r ==> !IsBlank(b)
    ensures forall b :: b in bs && !IsBlank(b) ==> b in r
    decreases |bs|
  {
    if bs == [] then []
    else if IsBlank(bs[0]) then NonBlank(bs[1..])
    else [bs[0]] + NonBlank(bs[1..])
  }

  /** The buffers that are actually appended to `chunks`, before stripping. */
  function Flushed(text: string, budget: int, count: Counter): seq<string> {
    NonBlank(Buffers(text, budget, count))
  }

  /** split_into_chunks: `None` gives no chunks; otherwise every flushed buffer,
      stripped, in order. */
  function SplitIntoChunks(text: Option<string>, budget: int, count: Counter): (chunks: seq<string>)
    ensures text.None? ==> chunks == []
    ensures forall c :: c in chunks ==> c != "" && Strip(c) == c
    ensures text.Some? ==> |chunks| == |Flushed(text.value, budget, count)|
    ensures text.Some? ==> forall i :: 0 <= i < |chunks| ==> chunks[i] == Strip(Flushed(text.value, budget, count)[i])
  {
    match text
    case None => []
    case Some(t) =>
      var f := Flushed(t, budget, count);
      StripAllNonBlank(f);
      StripAll(f)
  }

  /** `.strip()` applied to every buffer. */
  function StripAll(bs: seq<string>): (r: seq<string>)
    ensures |r| == |bs|
    ensures forall i :: 0 <= i < |bs| ==> r[i] == Strip(bs[i])
  {
    seq(|bs|, i requires 0 <= i < |bs| => Strip(bs[i]))
  }

  lemma StripAllNonBlank(bs: seq<string>)
    requires forall b :: b in bs ==> !IsBlank(b)
    ensures forall c :: c in StripAll(bs) ==> c != "" && Strip(c) == c
  {
    var r := StripAll(bs);
    forall c | c in r ensures c != "" && Strip(c) == c {
      var i :| 0 <= i < |r| && r[i] == c;
      assert bs[i] in bs;
      StripIdempotent(bs[i]);
    }
  }

  // ---------------------------------------------------------------------------
  // Budget: every flushed buffer fits, unless it is one overlong sentence.

  /** s is one of the pieces `line.split('. ')` gives for some line. */
  ghost predicate IsSentenceOf(s: string, lines: seq<string>) {
    exists line :: line in lines && s in Split(line, ". ")
  }

  /** A buffer within the budget, or a single sentence plus ". " that alone
      exceeded it (kept whole rather than dropped). */
  ghost predicate WithinBudget(b: string, lines: seq<string>, budget: int, count: Counter) {
    count(b) <= budget || exists s :: IsSentenceOf(s, lines) && b == s + ". "
  }

  ghost predicate Admissible(b: string, lines: seq<string>, budget: int, count: Counter) {
    IsBlank(b) || WithinBudget(b, lines, budget, count)
  }

  ghost predicate AllAdmissible(p: Packer, lines: seq<string>, budget: int, count: Counter) {
    && (forall b :: b in p.closed ==> Admissible(b, lines, budget, count))
    && Admissible(p.open, lines, budget, count)
  }

  lemma {:induction false} PackSentencesAdmissible(p: Packer, sentences: seq<string>, lines: seq<string>, budget: int, count: Counter)
    requires AllAdmissible(p, lines, budget, count)
    requires forall s :: s in sentences ==> IsSentenceOf(s, lines)
    ensures AllAdmissible(PackSentences(p, sentences, budget, count), lines, budget, count)
    decreases |sentences|
  {
    if sentences != [] {
      var s := sentences[0];
      var q := SentenceStep(p, s, budget, count);
      assert IsSentenceOf(s, lines);
      assert q.open == p.open + s + ". " || q.open == s + ". ";
      assert AllAdmissible(q, lines, budget, count);
      PackSentencesAdmissible(q, sentences[1..], lines, budget, count);
    }
  }

  lemma LineStepAdmissible(p: Packer, line: string, lines: seq<string>, budget: int, count: Counter)
    requires AllAdmissible(p, lines, budget, count)
    requires line in lines
    ensures AllAdmissible(LineStep(p, line, budget, count), lines, budget, count)
  {
    var candidate := p.open + line + "\n";
    if count(candidate) > budget && count(line + "\n") > budget {
      var start := Packer(p.closed + [p.open], "");
      assert IsBlank(start.open);
      assert AllAdmissible(start, lines, budget, count);
      PackSentencesAdmissible(start, Split(line, ". "), lines, budget, count);
    }
  }

  lemma {:induction false} PackLinesAdmissible(p: Packer, ls: seq<string>, lines: seq<string>, budget: int, count: Counter)
    requires AllAdmissible(p, lines, budget, count)
    requires forall l :: l in ls ==> l in lines
    ensures AllAdmissible(PackLines(p, ls, budget, count), lines, budget, count)
    decreases |ls|
  {
    if ls != [] {
      LineStepAdmissible(p, ls[0], lines, budget, count);
      PackLinesAdmissible(LineStep(p, ls[0], budget, count), ls[1..], lines, budget, count);
    }
  }

  /** Every buffer appended to the chunk list is within the budget, or is
      exactly one sentence of the fallback split, plus ". ", that alone
      exceeded it. */
  lemma FlushedWithinBudget(text: string, budget: int, count: Counter)
    ensures forall b :: b in Flushed(text, budget, count) ==> WithinBudget(b, Split(text, "\n"), budget, count)
  {
    var lines := Split(text, "\n");
    var p := PackLines(Packer([], ""), lines, budget, count);
    assert IsBlank("");
    PackLinesAdmissible(Packer([], ""), lines, lines, budget, count);
    assert forall b :: b in Buffers(text, budget, count) ==> Admissible(b, lines, budget, count);
    SubsequenceMembers(Flushed(text, budget, count), Buffers(text, budget, count));
  }

  // ---------------------------------------------------------------------------
  // Reconstruction: when every line fits on its own, nothing is lost.

  /** Each line followed by "\n", concatenated. */
  function Terminated(lines: seq<string>): string
    decreases |lines|
  {
    if lines == [] then "" else lines[0] + "\n" + Terminated(lines[1..])
  }

  lemma {:induction false} JoinTerminated(lines: seq<string>)
    requires |lines| >= 1
    ensures Join(lines, "\n") + "\n" == Terminated(lines)
    decreases |lines|
  {
    if |lines| > 1 {
      JoinTerminated(lines[1..]);
    }
  }

  /** One line that fits the budget on its own is appended whole, either to the
      open buffer or to a fresh one after a flush. */
  lemma LineStepConcat(p: Packer, line: string, budget: int, count: Counter)
    requires count(line + "\n") <= budget
    ensures var q := LineStep(p, line, budget, count);
      Concat(q.closed) + q.open == Concat(p.closed) + p.open + line + "\n"
  {
    if count(p.open + line + "\n") > budget {
      ConcatAppend(p.closed, [p.open]);
      assert Concat([p.open]) == p.open;
    }
  }

  lemma {:induction false} PackLinesConcat(p: Packer, ls: seq<string>, budget: int, count: Counter)
    requires forall l :: l in ls ==> count(l + "\n") <= budget
    ensures var q := PackLines(p, ls, budget, count);
      Concat(q.closed) + q.open == Concat(p.closed) + p.open + Terminated(ls)
    decreases |ls|
  {
    if ls != [] {
      var line := ls[0];
      var q := LineStep(p, line, budget, count);
      var before := Concat(p.closed) + p.open;
      var rest := Terminated(ls[1..]);
      assert Concat(q.closed) + q.open == before + line + "\n" by {
        LineStepConcat(p, line, budget, count);
      }
      PackLinesConcat(q, ls[1..], budget, count);
      assert PackLines(p, ls, budget, count) == PackLines(q, ls[1..], budget, count);
      assert Terminated(ls) == line + "\n" + rest;
      assert before + line + "\n" + rest == before + Terminated(ls);
    }
  }

  /** If each line, with its "\n", fits the budget on its own, the buffers in
      order (blank ones included) concatenate back to the text plus "\n". */
  lemma BuffersReconstructText(text: string, budget: int, count: Counter)
    requires forall line :: line in Split(text, "\n") ==> count(line + "\n") <= budget
    ensures Concat(Buffers(text, budget, count)) == text + "\n"
  {
    var lines := Split(text, "\n");
    var p := PackLines(Packer([], ""), lines, budget, count);
    PackLinesConcat(Packer([], ""), lines, budget, count);
    ConcatAppend(p.closed, [p.open]);
    assert Concat([p.open]) == p.open;
    JoinTerminated(lines);
  }

  /** Empty text gives no chunk as long as a bare "\n" fits the budget. */
  lemma EmptyTextHasNoChunks(budget: int, count: Counter)
    requires count("\n") <= budget
    ensures SplitIntoChunks(Some(""), budget, count) == []
  {
    var lines := Split("", "\n");
    assert lines == [""] by {
      assert Find("", "\n") == None;
    }
    assert LineStep(Packer([], ""), "", budget, count) == Packer([], "\n") by {
      assert "" + "" + "\n" == "\n";
    }
    assert lines[1..] == [];
    assert PackLines(Packer([], ""), lines, budget, count) == Packer([], "\n");
    assert Buffers("", budget, count) == ["\n"];
    assert IsBlank("\n");
  }
}
