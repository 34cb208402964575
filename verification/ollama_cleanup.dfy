/** The clean-up MarkdownFixer.fix_markdown applies to the model's reply
    (mdfm_ollama.py:146-161) once the HTTP call is taken away: strip, drop
    `<think>...</think>` blocks, unwrap a code fence, collapse runs of blank
    lines, strip again, and fall back to the original document when nothing
    is left. */
module OllamaCleanup {
  import opened Strings

  const ThinkOpen: string := "<think>"
  const ThinkClose: string := "</think>"

  // ---------------------------------------------------------------------------
  // `re.sub(r'<think>.*?</think>', '', text, flags=re.DOTALL)`

  /** Remove every `<think>` block, each ending at the first `</think>` after
      its opening tag, scanning left to right. An opening tag with no closing
      tag after it stays, and so does everything after it. */
  function RemoveThink(s: string): (r: string)
    ensures |r| <= |s|
    ensures !Contains(s, ThinkOpen) ==> r == s
    decreases |s|
  {
    match Find(s, ThinkOpen)
    case None => s
    case Some(i) =>
      match FindFrom(s, ThinkClose, i + |ThinkOpen|)
      case None => s
      case Some(j) => s[..i] + RemoveThink(s[j + |ThinkClose|..])
  }

  /** FindFrom is pinned down by its contract: the first occurrence at or
      after `from`. */
  lemma FindFromIs(s: string, p: string, from: nat, k: nat)
    requires from <= k && OccursAt(s, p, k)
    requires forall m :: from <= m < k ==> !OccursAt(s, p, m)
    ensures FindFrom(s, p, from) == Some(k)
  {
  }

  /** A block after text without '<', whose inside has no '<' either, is
      removed and the text before it is kept. */
  lemma ThinkBlockRemoved(a: string, b: string, c: string)
    requires '<' !in a && '<' !in b
    ensures RemoveThink(a + ThinkOpen + b + ThinkClose + c) == a + RemoveThink(c)
  {
    var s := a + ThinkOpen + b + ThinkClose + c;
    var i := |a|;
    var j := |a| + |ThinkOpen| + |b|;
    assert s[i..i + |ThinkOpen|] == ThinkOpen;
    forall m | 0 <= m < i ensures !OccursAt(s, ThinkOpen, m) {
      assert s[m] == a[m];
      if m + |ThinkOpen| <= |s| { assert s[m..m + |ThinkOpen|][0] == s[m] != ThinkOpen[0]; }
    }
    FindFromIs(s, ThinkOpen, 0, i);
    assert s[j..j + |ThinkClose|] == ThinkClose;
    forall m | i + |ThinkOpen| <= m < j ensures !OccursAt(s, ThinkClose, m) {
      assert s[m] == b[m - i - |ThinkOpen|];
      if m + |ThinkClose| <= |s| { assert s[m..m + |ThinkClose|][0] == s[m] != ThinkClose[0]; }
    }
    FindFromIs(s, ThinkClose, i + |ThinkOpen|, j);
    assert s[..i] == a;
    assert s[j + |ThinkClose|..] == c;
  }

  // ---------------------------------------------------------------------------
  // Code-fence unwrap (mdfm_ollama.py:152-155)

  /** f is r with one line added before it and one after it. */
  ghost predicate Wraps(f: string, r: string) {
    exists a, b :: '\n' !in a && '\n' !in b && f == a + "\n" + r + "\n" + b
  }

  /** Wraps has at most one inner text: the lines removed are the first and
      the last. */
  lemma WrapsUnique(a: string, r: string, b: string, a': string, r': string, b': string)
    requires '\n' !in a && '\n' !in b && '\n' !in a' && '\n' !in b'
    requires a + "\n" + r + "\n" + b == a' + "\n" + r' + "\n" + b'
    ensures r == r'
  {
    var f := a + "\n" + r + "\n" + b;
    assert f[|a|] == '\n';
    assert f[|a'|] == '\n';
    assert forall k :: 0 <= k < |a| ==> f[k] == a[k];
    assert forall k :: 0 <= k < |a'| ==> f[k] == a'[k];
    assert |a| == |a'|;
    var n := |f|;
    assert f[n - |b| - 1] == '\n';
    assert f[n - |b'| - 1] == '\n';
    assert forall k :: 0 <= k < |b| ==> f[n - |b| + k] == b[k];
    assert forall k :: 0 <= k < |b'| ==> f[n - |b'| + k] == b'[k];
    assert |b| == |b'|;
    assert r == f[|a| + 1..n - |b| - 1];
    assert r' == f[|a'| + 1..n - |b'| - 1];
  }

  predicate IsFenced(f: string) {
    StartsWith(f, CodeFence) && EndsWith(f, CodeFence)
  }

  /** A fenced reply of more than two lines loses its first and last lines;
      anything else is left alone. */
  function Unfence(f: string): (r: string)
    ensures IsFenced(f) && |Split(f, "\n")| > 2 ==> Wraps(f, r)
    ensures !(IsFenced(f) && |Split(f, "\n")| > 2) ==> r == f
  {
    if IsFenced(f) then
      var lines := Split(f, "\n");
      if |lines| > 2 then
        var n := |lines| - 1;
        var inner := lines[1..n];
        SplitLinesHaveNoNewline(f);
        assert lines == [lines[0]] + (inner + [lines[n]]);
        assert (inner + [lines[n]])[1..] == inner[1..] + [lines[n]];
        JoinSnoc(inner, lines[n], "\n");
        assert f == lines[0] + "\n" + Join(inner, "\n") + "\n" + lines[n];
        Join(inner, "\n")
      else f
    else f
  }

  function NewlineCount(s: string): nat
    decreases |s|
  {
    if s == [] then 0 else (if s[0] == '\n' then 1 else 0) + NewlineCount(s[1..])
  }

  lemma {:induction false} NewlineCountAppend(s: string, t: string)
    ensures NewlineCount(s + t) == NewlineCount(s) + NewlineCount(t)
    decreases |s|
  {
    if s == [] {
      assert s + t == t;
    } else {
      assert (s + t)[1..] == s[1..] + t;
      NewlineCountAppend(s[1..], t);
    }
  }

  lemma {:induction false} NewlineCountNone(s: string)
    requires '\n' !in s
    ensures NewlineCount(s) == 0
    decreases |s|
  {
    if s != [] {
      assert forall k :: 0 <= k < |s| - 1 ==> s[1..][k] == s[k + 1];
      NewlineCountNone(s[1..]);
    }
  }

  /** Joining newline-free lines with newlines puts one newline between each
      pair of lines. */
  lemma {:induction false} NewlineCountJoin(lines: seq<string>)
    requires NoNewlines(lines) && lines != []
    ensures NewlineCount(Join(lines, "\n")) == |lines| - 1
    decreases |lines|
  {
    NewlineCountNone(lines[0]);
    if |lines| > 1 {
      NewlineCountJoin(lines[1..]);
      NewlineCountAppend(lines[0] + "\n", Join(lines[1..], "\n"));
      NewlineCountAppend(lines[0], "\n");
    }
  }

  /** A fenced reply is unwrapped to exactly what lies between its first and
      last lines. */
  lemma UnfenceDropsFenceLines(a: string, body: string, b: string)
    requires '\n' !in a && '\n' !in b && StartsWith(a, CodeFence) && EndsWith(b, CodeFence)
    ensures Unfence(a + "\n" + body + "\n" + b) == body
  {
    var f := a + "\n" + body + "\n" + b;
    assert f[..|CodeFence|] == a[..|CodeFence|];
    assert f[|f| - |CodeFence|..] == b[|b| - |CodeFence|..];
    var lines := Split(f, "\n");
    SplitLinesHaveNoNewline(f);
    NewlineCountJoin(lines);
    NewlineCountAppend(a + "\n" + body + "\n", b);
    NewlineCountAppend(a + "\n" + body, "\n");
    NewlineCountAppend(a + "\n", body);
    NewlineCountAppend(a, "\n");
    NewlineCountNone(a);
    NewlineCountNone(b);
    var r := Unfence(f);
    var a', b' :| '\n' !in a' && '\n' !in b' && f == a' + "\n" + r + "\n" + b';
    WrapsUnique(a, body, b, a', r, b');
  }

  // ---------------------------------------------------------------------------
  // `re.sub(r'\n\s*\n\s*\n', '\n\n', text)` (mdfm_ollama.py:157-158)

  /** Where the first newline of w is, |w| when there is none. */
  function FirstNewline(w: string): (k: nat)
    ensures k <= |w| && (k < |w| ==> w[k] == '\n')
    ensures forall j :: 0 <= j < k ==> w[j] != '\n'
    decreases |w|
  {
    if w == [] || w[0] == '\n' then 0 else 1 + FirstNewline(w[1..])
  }

  /** Just past the last newline of w, 0 when there is none. */
  function LastNewlineEnd(w: string): (k: nat)
    ensures k <= |w| && (k > 0 ==> w[k - 1] == '\n')
    ensures forall j :: k <= j < |w| ==> w[j] != '\n'
    decreases |w|
  {
    if w == [] || w[|w| - 1] == '\n' then |w| else LastNewlineEnd(w[..|w| - 1])
  }

  /** One maximal run of whitespace. The pattern only matches inside such a
      run and only from a newline, so the leftmost match starts at the run's
      first newline; the greedy `\s*`s then give back just enough for the last
      `\n` to fall on the run's last newline. A run with at least three
      newlines therefore has everything from its first newline to its last
      replaced by two newlines; any other run is kept. */
  function CollapseRun(w: string): (r: string)
    requires IsBlank(w)
    ensures IsBlank(r)
    ensures r == [] <==> w == []
  {
    if NewlineCount(w) >= 3 then
      var a, b := w[..FirstNewline(w)], w[LastNewlineEnd(w)..];
      BlankConcat(a, "\n\n");
      BlankConcat(a + "\n\n", b);
      a + "\n\n" + b
    else w
  }

  /** The substitution, run by run: text outside whitespace is copied. */
  function Collapse(s: string): (r: string)
    decreases |s|
  {
    if s == [] then []
    else if !IsSpace(s[0]) then [s[0]] + Collapse(s[1..])
    else
      var e := SpacesFrom(s, 0);
      CollapseRun(s[..e]) + Collapse(s[e..])
  }

  /** The characters of s that are not whitespace, in order. */
  function Visible(s: string): (r: string)
    ensures r == [] <==> IsBlank(s)
    decreases |s|
  {
    if s == [] then []
    else
      var rest := Visible(s[1..]);
      assert IsBlank(s) <==> IsSpace(s[0]) && IsBlank(s[1..]);
      if IsSpace(s[0]) then rest else [s[0]] + rest
  }

  lemma {:induction false} VisibleAppend(a: string, b: string)
    ensures Visible(a + b) == Visible(a) + Visible(b)
    decreases |a|
  {
    if a == [] {
      assert a + b == b;
    } else {
      assert (a + b)[1..] == a[1..] + b;
      VisibleAppend(a[1..], b);
    }
  }

  /** Only whitespace changes: the visible text is kept character for
      character. */
  lemma {:induction false} CollapseKeepsVisible(s: string)
    ensures Visible(Collapse(s)) == Visible(s)
    decreases |s|
  {
    if s != [] {
      if !IsSpace(s[0]) {
        CollapseKeepsVisible(s[1..]);
        VisibleCopyStep(s);
      } else {
        var e := SpacesFrom(s, 0);
        CollapseKeepsVisible(s[e..]);
        VisibleRunStep(s, e);
      }
    }
  }

  lemma VisibleCopyStep(s: string)
    requires s != [] && !IsSpace(s[0])
    requires Visible(Collapse(s[1..])) == Visible(s[1..])
    ensures Visible(Collapse(s)) == Visible(s)
  {
    VisibleAppend([s[0]], Collapse(s[1..]));
    assert [s[0]][1..] == [];
  }

  lemma VisibleRunStep(s: string, e: nat)
    requires s != [] && IsSpace(s[0]) && e == SpacesFrom(s, 0)
    requires Visible(Collapse(s[e..])) == Visible(s[e..])
    ensures Visible(Collapse(s)) == Visible(s)
  {
    var w, rest := s[..e], s[e..];
    RunThenRest(s, e);
    assert Collapse(s) == CollapseRun(w) + Collapse(rest);
    VisibleAppend(CollapseRun(w), Collapse(rest));
    VisibleAppend(w, rest);
  }

  /** The leading whitespace run and what follows make up the whole text. */
  lemma RunThenRest(s: string, e: nat)
    requires e == SpacesFrom(s, 0)
    ensures IsBlank(s[..e]) && s[..e] + s[e..] == s
  {
    var w := s[..e];
    forall j | 0 <= j < |w| ensures IsSpace(w[j]) {
      assert w[j] == s[j];
    }
  }

  /** So a blank reply stays blank and a non-blank one does not become blank. */
  lemma CollapseKeepsBlank(s: string)
    ensures IsBlank(Collapse(s)) <==> IsBlank(s)
  {
    CollapseKeepsVisible(s);
  }

  /** Text that ends in a visible character keeps it as its last character. */
  lemma {:induction false} CollapseKeepsLast(s: string)
    requires s != [] && !IsSpace(s[|s| - 1])
    ensures Collapse(s) != [] && Collapse(s)[|Collapse(s)| - 1] == s[|s| - 1]
    decreases |s|
  {
    if !IsSpace(s[0]) {
      if |s| > 1 {
        CollapseKeepsLast(s[1..]);
      }
    } else {
      var e := SpacesFrom(s, 0);
      CollapseKeepsLast(s[e..]);
    }
  }

  /** Trimmed text stays trimmed. */
  lemma CollapseTrimmed(s: string)
    requires s != [] && !IsSpace(s[0]) && !IsSpace(s[|s| - 1])
    ensures Strip(Collapse(s)) == Collapse(s) != []
  {
    CollapseKeepsLast(s);
    StripOfTrimmed(Collapse(s));
  }

  // ---------------------------------------------------------------------------
  // The whole clean-up (mdfm_ollama.py:146-161)

  /** The reply after clean-up: the original document when nothing visible is
      left of the reply once think blocks and the fence are gone. */
  function Cleanup(reply: string, content: string): (r: string)
    ensures r == content || (r != [] && !IsSpace(r[0]) && !IsSpace(r[|r| - 1]))
    ensures r == [] ==> content == []
    ensures IsBlank(Unfence(RemoveThink(Strip(reply)))) ==> r == content
  {
    var unwrapped := Unfence(RemoveThink(Strip(reply)));
    CollapseKeepsBlank(unwrapped);
    var fixed := Strip(Collapse(unwrapped));
    if fixed == [] then content else fixed
  }

  /** A reply without think blocks or a fence comes back stripped and
      collapsed, or as the original document when it is blank. */
  lemma CleanupPlainReply(reply: string, content: string)
    requires !Contains(reply, ThinkOpen) && !IsFenced(Strip(reply))
    ensures Cleanup(reply, content) == if IsBlank(reply) then content else Collapse(Strip(reply))
  {
    var t := Strip(reply);
    StripNoNewOccurrence(reply, ThinkOpen);
    assert RemoveThink(t) == t;
    assert Unfence(t) == t;
    if t != [] {
      CollapseTrimmed(t);
    }
  }

  /** A reply that is nothing but a think block gives back the original
      document. */
  lemma CleanupThinkOnly(b: string, content: string)
    requires '<' !in b
    ensures Cleanup(ThinkOpen + b + ThinkClose, content) == content
  {
    var reply := ThinkOpen + b + ThinkClose;
    ThinkBlockTrimmed(b);
    ThinkBlockAlone(b);
    CleanupOfBlank(reply, content);
  }

  lemma ThinkBlockTrimmed(b: string)
    ensures Strip(ThinkOpen + b + ThinkClose) == ThinkOpen + b + ThinkClose
  {
    var reply := ThinkOpen + b + ThinkClose;
    assert reply[0] == '<' && reply[|reply| - 1] == '>';
    StripOfTrimmed(reply);
  }

  lemma ThinkBlockAlone(b: string)
    requires '<' !in b
    ensures RemoveThink(ThinkOpen + b + ThinkClose) == []
  {
    var e: string := [];
    var s := e + ThinkOpen + b + ThinkClose + e;
    assert s == ThinkOpen + b + ThinkClose;
    assert RemoveThink(s) == e + RemoveThink(e) by {
      ThinkBlockRemoved(e, b, e);
    }
  }

  /** A reply whose think blocks are all it has gives back the original. */
  lemma CleanupOfBlank(reply: string, content: string)
    requires RemoveThink(Strip(reply)) == []
    ensures Cleanup(reply, content) == content
  {
    assert !IsFenced([]);
    assert Unfence([]) == [];
  }

  /** A fenced reply without '<' in its body comes back as the collapsed,
      stripped body, or as the original document when that is blank. */
  lemma CleanupFencedReply(body: string, content: string)
    requires '<' !in body
    ensures Cleanup(CodeFence + "\n" + body + "\n" + CodeFence, content)
      == if IsBlank(body) then content else Strip(Collapse(body))
  {
    var reply := CodeFence + "\n" + body + "\n" + CodeFence;
    FencedReplyKept(body);
    UnfenceDropsFenceLines(CodeFence, body, CodeFence);
    CleanupOfUnwrapped(reply, content, body);
  }

  /** Strip and think-block removal leave such a reply alone. */
  lemma FencedReplyKept(body: string)
    requires '<' !in body
    ensures var reply := CodeFence + "\n" + body + "\n" + CodeFence;
      RemoveThink(Strip(reply)) == reply
  {
    var reply := CodeFence + "\n" + body + "\n" + CodeFence;
    assert reply[0] == '`' && reply[|reply| - 1] == '`';
    StripOfTrimmed(reply);
    assert '<' !in reply;
    NoThinkWithoutLt(reply);
  }

  /** Text without '<' holds no think block, so none is removed. */
  lemma NoThinkWithoutLt(s: string)
    requires '<' !in s
    ensures RemoveThink(s) == s
  {
    forall m | 0 <= m ensures !OccursAt(s, ThinkOpen, m) {
      if m + |ThinkOpen| <= |s| {
        assert s[m..m + |ThinkOpen|][0] == s[m];
      }
    }
  }

  /** Once the reply is down to `body`, what remains is collapse and strip. */
  lemma CleanupOfUnwrapped(reply: string, content: string, body: string)
    requires Unfence(RemoveThink(Strip(reply))) == body
    ensures Cleanup(reply, content) == if IsBlank(body) then content else Strip(Collapse(body))
  {
    CollapseKeepsBlank(body);
  }
}
