/** Text helpers shared by the three scripts: Python's str.strip family,
    substring search, str.split / str.join, case folding and decimal digits.
    Python semantics are followed where they matter; Unicode case folding and
    the regex classes \d and \w are approximated by their ASCII parts. */
module Strings {

  datatype Option<+T> = None | Some(value: T)

  /** The characters Python's str.isspace() accepts (the set str.strip() removes). */
  predicate IsSpace(c: char) {
    || c == ' '
    || ('\t' <= c <= '\r')
    || ('\U{1C}' <= c <= '\U{1F}')
    || c == '\U{85}' || c == '\U{A0}' || c == '\U{1680}'
    || ('\U{2000}' <= c <= '\U{200A}')
    || c == '\U{2028}' || c == '\U{2029}' || c == '\U{202F}' || c == '\U{205F}'
    || c == '\U{3000}'
  }

  /** A string that str.strip() reduces to "" (also what `if s.strip():` rejects). */
  predicate IsBlank(s: string) {
    forall i :: 0 <= i < |s| ==> IsSpace(s[i])
  }

  predicate IsDigit(c: char) {
    '0' <= c <= '9'
  }

  predicate AllDigits(s: string) {
    forall i :: 0 <= i < |s| ==> IsDigit(s[i])
  }

  // ---------------------------------------------------------------------------
  // strip / lstrip / rstrip

  /** The first position at or after i that is not whitespace, |s| if none. */
  function SpacesFrom(s: string, i: nat): (n: nat)
    requires i <= |s|
    ensures i <= n <= |s|
    ensures forall j :: i <= j < n ==> IsSpace(s[j])
    ensures n == |s| || !IsSpace(s[n])
    decreases |s| - i
  {
    if i < |s| && IsSpace(s[i]) then SpacesFrom(s, i + 1) else i
  }

  /** Where the run of whitespace that ends at position j begins. */
  function SpacesBefore(s: string, j: nat): (n: nat)
    requires j <= |s|
    ensures n <= j
    ensures forall k :: n <= k < j ==> IsSpace(s[k])
    ensures n == 0 || !IsSpace(s[n - 1])
    decreases j
  {
    if j > 0 && IsSpace(s[j - 1]) then SpacesBefore(s, j - 1) else j
  }

  /** str.rstrip(): drops the longest all-whitespace suffix. */
  function RStrip(s: string): (r: string)
    ensures |r| <= |s|
    ensures forall i :: 0 <= i < |r| ==> r[i] == s[i]
    ensures forall i :: |r| <= i < |s| ==> IsSpace(s[i])
    ensures r == [] || !IsSpace(r[|r| - 1])
  {
    s[..SpacesBefore(s, |s|)]
  }

  /** Where str.strip() cuts: from the first non-whitespace character to just
      after the last one; a blank text is cut to nothing. */
  function StripBounds(s: string): (b: (nat, nat))
    ensures b.0 <= b.1 <= |s|
    ensures forall i :: 0 <= i < b.0 ==> IsSpace(s[i])
    ensures forall i :: b.1 <= i < |s| ==> IsSpace(s[i])
    ensures b.0 < b.1 ==> !IsSpace(s[b.0]) && !IsSpace(s[b.1 - 1])
    ensures b.0 == b.1 ==> IsBlank(s)
  {
    var a := SpacesFrom(s, 0);
    if a == |s| then (a, a) else (a, SpacesBefore(s, |s|))
  }

  /** str.strip(): whitespace is gone from both ends, and only a blank text
      strips to "". StripUnique pins the result down. */
  function Strip(s: string): (r: string)
    ensures |r| <= |s|
    ensures r == [] || (!IsSpace(r[0]) && !IsSpace(r[|r| - 1]))
    ensures r == [] <==> IsBlank(s)
  {
    var (a, b) := StripBounds(s);
    s[a..b]
  }

  /** A non-empty infix with blank surroundings and non-whitespace ends is the strip. */
  lemma StripUnique(t: string, k: nat, r: string)
    requires k + |r| <= |t| && r == t[k..k + |r|] && r != []
    requires IsBlank(t[..k]) && IsBlank(t[k + |r|..])
    requires !IsSpace(r[0]) && !IsSpace(r[|r| - 1])
    ensures Strip(t) == r
  {
    var (a, b) := StripBounds(t);
    var n := k + |r|;
    assert t[k] == r[0] && t[n - 1] == r[|r| - 1];
    forall i | 0 <= i < k ensures IsSpace(t[i]) {
      assert t[..k][i] == t[i];
    }
    forall i | n <= i < |t| ensures IsSpace(t[i]) {
      assert t[n..][i - n] == t[i];
    }
    assert a == k && b == n;
  }

  /** A string with no whitespace at either end is its own strip. */
  lemma StripOfTrimmed(s: string)
    requires s == [] || (!IsSpace(s[0]) && !IsSpace(s[|s| - 1]))
    ensures Strip(s) == s
  {
    if s != [] {
      assert s[0..|s|] == s;
      StripUnique(s, 0, s);
    }
  }

  lemma StripIdempotent(s: string)
    ensures Strip(Strip(s)) == Strip(s)
  {
    StripOfTrimmed(Strip(s));
  }

  lemma BlankConcat(a: string, b: string)
    requires IsBlank(a) && IsBlank(b)
    ensures IsBlank(a + b)
  {
    var t := a + b;
    forall i | 0 <= i < |t| ensures IsSpace(t[i]) {
      if i < |a| { assert t[i] == a[i]; } else { assert t[i] == b[i - |a|]; }
    }
  }

  /** Whitespace around a text does not change its strip. */
  lemma StripBlankAround(v: string, s: string, w: string)
    requires IsBlank(v) && IsBlank(w)
    ensures Strip(v + s + w) == Strip(s)
  {
    var t := v + s + w;
    if IsBlank(s) {
      BlankConcat(v, s);
      BlankConcat(v + s, w);
    } else {
      var (a, b) := StripBounds(s);
      var r := Strip(s);
      var k := |v| + a;
      forall m | 0 <= m < |r| ensures t[k + m] == r[m] {
        assert t[k + m] == s[a + m];
      }
      assert t[k..k + |r|] == r;
      BlankBefore(v, s, w, a);
      BlankAfter(v, s, w, b);
      StripUnique(t, k, r);
    }
  }

  lemma BlankBefore(v: string, s: string, w: string, a: nat)
    requires IsBlank(v) && a <= |s|
    requires forall i :: 0 <= i < a ==> IsSpace(s[i])
    ensures IsBlank((v + s + w)[..|v| + a])
  {
    var t := v + s + w;
    var n := |v| + a;
    forall i | 0 <= i < n ensures IsSpace(t[..n][i]) {
      if i < |v| { assert t[i] == v[i]; } else { assert t[i] == s[i - |v|]; }
    }
  }

  lemma BlankAfter(v: string, s: string, w: string, b: nat)
    requires IsBlank(w) && b <= |s|
    requires forall i :: b <= i < |s| ==> IsSpace(s[i])
    ensures IsBlank((v + s + w)[|v| + b..])
  {
    var t := v + s + w;
    var n := |v| + b;
    forall i | 0 <= i < |t| - n ensures IsSpace(t[n..][i]) {
      if n + i < |v| + |s| { assert t[n + i] == s[b + i]; } else { assert t[n + i] == w[n + i - |v| - |s|]; }
    }
  }

  /** Whitespace in front of a text does not change its strip. */
  lemma StripBlankPrefix(w: string, s: string)
    requires IsBlank(w)
    ensures Strip(w + s) == Strip(s)
  {
    StripBlankAround(w, s, []);
    assert w + s + [] == w + s;
  }

  /** Whitespace after a text does not change its strip. */
  lemma StripBlankSuffix(s: string, w: string)
    requires IsBlank(w)
    ensures Strip(s + w) == Strip(s)
  {
    StripBlankAround([], s, w);
    assert [] + s + w == s + w;
  }

  /** rstrip leaves a stripped text alone. */
  lemma RStripOfStripped(s: string)
    ensures RStrip(Strip(s)) == Strip(s)
  {
    var r := Strip(s);
    if r != [] {
      assert |RStrip(r)| == |r|;
    }
  }

  /** An occurrence inside an infix is an occurrence in the whole text. */
  lemma OccursInInfix(s: string, p: string, i: nat, j: nat, m: int)
    requires i <= j <= |s|
    ensures OccursAt(s[i..j], p, m) ==> OccursAt(s, p, i + m)
  {
    if OccursAt(s[i..j], p, m) {
      forall t | 0 <= t < |p| ensures s[i + m + t] == p[t] {
        assert s[i..j][m..m + |p|][t] == p[t];
      }
      assert s[i + m..i + m + |p|] == p;
    }
  }

  /** An infix of a text without p has no p either. */
  lemma InfixNoOccurrence(s: string, p: string, i: nat, j: nat)
    requires i <= j <= |s| && !Contains(s, p)
    ensures !Contains(s[i..j], p)
  {
    forall m | 0 <= m ensures !OccursAt(s[i..j], p, m) {
      OccursInInfix(s, p, i, j, m);
      assert !OccursAt(s, p, i + m);
    }
  }

  /** Stripping never creates an occurrence. */
  lemma StripNoNewOccurrence(s: string, p: string)
    requires !Contains(s, p)
    ensures !Contains(Strip(s), p)
  {
    var (a, b) := StripBounds(s);
    InfixNoOccurrence(s, p, a, b);
  }

  /** str.lstrip(c) for a single character c. */
  function LStripChar(s: string, c: char): (r: string)
    ensures |r| <= |s| && r == s[|s| - |r|..]
    ensures r == [] || r[0] != c
    ensures forall i :: 0 <= i < |s| - |r| ==> s[i] == c
    decreases |s|
  {
    if s != [] && s[0] == c then LStripChar(s[1..], c) else s
  }

  // ---------------------------------------------------------------------------
  // prefixes, suffixes and substring search

  /** The Markdown code fence. */
  const CodeFence: string := "```"

  predicate StartsWith(s: string, p: string) {
    |p| <= |s| && s[..|p|] == p
  }

  predicate EndsWith(s: string, p: string) {
    |p| <= |s| && s[|s| - |p|..] == p
  }

  /** p occurs in s at position i. */
  predicate OccursAt(s: string, p: string, i: int) {
    0 <= i && i + |p| <= |s| && s[i..i + |p|] == p
  }

  /** The leftmost occurrence of p in s at or after position `from` (str.find). */
  function FindFrom(s: string, p: string, from: nat): (r: Option<nat>)
    ensures r.Some? ==> from <= r.value && OccursAt(s, p, r.value)
    ensures r.Some? ==> forall j :: from <= j < r.value ==> !OccursAt(s, p, j)
    ensures r.None? ==> forall j :: from <= j ==> !OccursAt(s, p, j)
    decreases |s| - from
  {
    if from + |p| > |s| then None
    else if s[from..from + |p|] == p then Some(from)
    else FindFrom(s, p, from + 1)
  }

  function Find(s: string, p: string): (r: Option<nat>)
    ensures r.Some? ==> OccursAt(s, p, r.value)
    ensures r.Some? ==> forall j :: 0 <= j < r.value ==> !OccursAt(s, p, j)
    ensures r.None? ==> forall j :: 0 <= j ==> !OccursAt(s, p, j)
  {
    FindFrom(s, p, 0)
  }

  /** Python's `p in s`. */
  predicate Contains(s: string, p: string) {
    Find(s, p).Some?
  }

  lemma ContainsAt(s: string, p: string, i: int)
    requires OccursAt(s, p, i)
    ensures Contains(s, p)
  {
  }

  lemma OccursInPrefix(s: string, p: string, n: nat, i: int)
    requires n <= |s| && OccursAt(s[..n], p, i)
    ensures OccursAt(s, p, i)
  {
    assert s[..n][i..i + |p|] == s[i..i + |p|];
  }

  lemma OccursInSuffix(s: string, p: string, n: nat, i: int)
    requires n <= |s| && OccursAt(s[n..], p, i)
    ensures OccursAt(s, p, n + i)
  {
    assert s[n..][i..i + |p|] == s[n + i..n + i + |p|];
  }

  /** Within a piece of s, the occurrences of s are those of the piece. */
  lemma OccursInPiece(s: string, off: nat, b: string, p: string, i: int)
    requires off + |b| <= |s| && s[off..off + |b|] == b
    requires off <= i && i + |p| <= off + |b|
    ensures OccursAt(s, p, i) <==> OccursAt(b, p, i - off)
  {
    var u, v := s[i..i + |p|], b[i - off..i - off + |p|];
    forall m | 0 <= m < |p| ensures u[m] == v[m] {
      assert s[i + m] == s[off..off + |b|][i - off + m];
    }
    assert u == v;
  }

  // ---------------------------------------------------------------------------
  // str.split(sep) / sep.join(parts)

  function Join(parts: seq<string>, sep: string): string
    decreases |parts|
  {
    if |parts| == 0 then ""
    else if |parts| == 1 then parts[0]
    else parts[0] + sep + Join(parts[1..], sep)
  }

  /** Python's s.split(sep) for a non-empty separator: cut at every leftmost,
      non-overlapping occurrence of sep. */
  function Split(s: string, sep: string): (parts: seq<string>)
    requires |sep| > 0
    ensures |parts| >= 1
    ensures Join(parts, sep) == s
    decreases |s|
  {
    match Find(s, sep)
    case None => [s]
    case Some(i) =>
      var rest := Split(s[i + |sep|..], sep);
      assert s == s[..i] + sep + s[i + |sep|..];
      [s[..i]] + rest
  }

  /** No piece of a split contains the separator. */
  lemma {:induction false} SplitPiecesFree(s: string, sep: string)
    requires |sep| > 0
    ensures forall k :: 0 <= k < |Split(s, sep)| ==> !Contains(Split(s, sep)[k], sep)
    decreases |s|
  {
    match Find(s, sep)
    case None =>
    case Some(i) =>
      var head := s[..i];
      assert !Contains(head, sep) by {
        if Find(head, sep).Some? {
          OccursInPrefix(s, sep, i, Find(head, sep).value);
        }
      }
      SplitPiecesFree(s[i + |sep|..], sep);
      assert Split(s, sep) == [head] + Split(s[i + |sep|..], sep);
  }

  /** No line holds a newline. */
  predicate NoNewlines(lines: seq<string>) {
    forall k :: 0 <= k < |lines| ==> '\n' !in lines[k]
  }

  /** The pieces of a split on newlines hold no newline. */
  lemma SplitLinesHaveNoNewline(s: string)
    ensures NoNewlines(Split(s, "\n"))
  {
    var parts := Split(s, "\n");
    SplitPiecesFree(s, "\n");
    forall k | 0 <= k < |parts| ensures '\n' !in parts[k] {
      if '\n' in parts[k] {
        var j :| 0 <= j < |parts[k]| && parts[k][j] == '\n';
        ContainsAt(parts[k], "\n", j);
      }
    }
  }

  /** Joining one more part adds the separator and that part. */
  lemma {:induction false} JoinSnoc(parts: seq<string>, last: string, sep: string)
    requires parts != []
    ensures Join(parts + [last], sep) == Join(parts, sep) + sep + last
    decreases |parts|
  {
    if |parts| == 1 {
      assert parts + [last] == [parts[0], last];
    } else {
      assert (parts + [last])[1..] == parts[1..] + [last];
      JoinSnoc(parts[1..], last, sep);
    }
  }

  /** Shifting a search into a suffix: the first occurrence in s[n..] is the
      first occurrence in s at or after n. */
  lemma FindInSuffix(s: string, p: string, n: nat)
    requires n <= |s|
    ensures Find(s[n..], p).Some? <==> FindFrom(s, p, n).Some?
    ensures Find(s[n..], p).Some? ==> FindFrom(s, p, n).value == n + Find(s[n..], p).value
  {
    var suffix := s[n..];
    forall k | 0 <= k ensures OccursAt(suffix, p, k) <==> OccursAt(s, p, n + k) {
      if OccursAt(suffix, p, k) { OccursInSuffix(s, p, n, k); }
      if OccursAt(s, p, n + k) { assert suffix[k..k + |p|] == s[n + k..n + k + |p|]; }
    }
    match FindFrom(s, p, n)
    case Some(v) =>
      assert OccursAt(suffix, p, v - n);
    case None =>
  }

  /** The first piece of a split ends at the first separator. */
  lemma SplitHead(s: string, sep: string)
    requires |sep| > 0
    ensures Find(s, sep).Some? ==> Split(s, sep)[0] == s[..Find(s, sep).value]
    ensures Find(s, sep).None? ==> Split(s, sep) == [s]
  {
  }

  /** A line without a newline is one piece. */
  lemma SplitOneLine(line: string)
    requires '\n' !in line
    ensures Split(line, "\n") == [line]
  {
    forall j | 0 <= j ensures !OccursAt(line, "\n", j) {
      if j < |line| {
        assert line[j..j + 1][0] == line[j];
      }
    }
    SplitHead(line, "\n");
  }

  /** Two newline-free lines joined by a newline split back into the two. */
  lemma SplitTwoLines(x: string, y: string)
    requires '\n' !in x && '\n' !in y
    ensures Split(x + "\n" + y, "\n") == [x, y]
  {
    var s := x + "\n" + y;
    forall j | 0 <= j < |x| ensures !OccursAt(s, "\n", j) {
      assert s[j..j + 1][0] == s[j] == x[j];
    }
    assert s[|x|..|x| + 1] == "\n";
    assert OccursAt(s, "\n", |x|);
    var f := Find(s, "\n");
    assert f.Some? && f.value <= |x|;
    assert f.value >= |x|;
    SplitHead(s, "\n");
    assert s[..|x|] == x;
    SplitTail(s, "\n");
    assert s[|x| + 1..] == y;
    SplitOneLine(y);
  }

  /** After the first piece, a split continues on the text after the first separator. */
  lemma SplitTail(s: string, sep: string)
    requires |sep| > 0 && Find(s, sep).Some?
    ensures Split(s, sep)[1..] == Split(s[Find(s, sep).value + |sep|..], sep)
  {
  }

  /** Concatenation of all parts, Python's "".join(parts). */
  function Concat(parts: seq<string>): string
    decreases |parts|
  {
    if parts == [] then "" else parts[0] + Concat(parts[1..])
  }

  lemma {:induction false} ConcatAppend(a: seq<string>, b: seq<string>)
    ensures Concat(a + b) == Concat(a) + Concat(b)
    decreases |a|
  {
    if a == [] {
      assert a + b == b;
    } else {
      assert (a + b)[1..] == a[1..] + b;
      ConcatAppend(a[1..], b);
    }
  }

  // ---------------------------------------------------------------------------
  // character removal and ASCII case folding

  /** s.replace(c, "") for a single character c. */
  function RemoveChar(s: string, c: char): (r: string)
    ensures |r| <= |s|
    ensures forall x :: x in r <==> x in s && x != c
    decreases |s|
  {
    if s == [] then ""
    else if s[0] == c then RemoveChar(s[1..], c)
    else [s[0]] + RemoveChar(s[1..], c)
  }

  function LowerChar(c: char): char {
    if 'A' <= c <= 'Z' then (c as int + 32) as char else c
  }

  /** str.lower(), restricted to ASCII letters. */
  function Lower(s: string): (r: string)
    ensures |r| == |s|
    ensures forall i :: 0 <= i < |s| ==> r[i] == LowerChar(s[i])
  {
    seq(|s|, i requires 0 <= i < |s| => LowerChar(s[i]))
  }

  // ---------------------------------------------------------------------------
  // decimal numerals (int(...) and f"{n}")

  function DigitValue(c: char): nat
    requires IsDigit(c)
  {
    c as int - '0' as int
  }

  function DigitChar(d: nat): (c: char)
    requires d < 10
    ensures IsDigit(c) && DigitValue(c) == d
  {
    ('0' as int + d) as char
  }

  /** int(d) for a string of ASCII digits (leading zeros allowed). */
  function DecimalValue(d: string): nat
    requires AllDigits(d)
    decreases |d|
  {
    if d == [] then 0 else DecimalValue(d[..|d| - 1]) * 10 + DigitValue(d[|d| - 1])
  }

  /** A string cut at the first occurrence of ch: the text before it, and the
      rest from ch on (empty when ch does not occur). */
  function SplitAtChar(s: string, ch: char): (r: (string, string))
    ensures s == r.0 + r.1
    ensures ch !in r.0
    ensures r.1 == [] || r.1[0] == ch
    decreases |s|
  {
    if s == [] || s[0] == ch then ([], s)
    else
      var r := SplitAtChar(s[1..], ch);
      assert s == [s[0]] + s[1..];
      ([s[0]] + r.0, r.1)
  }

  /** The cut is unique: text without ch followed by ch (or by nothing) is
      cut between the two. */
  lemma {:induction false} SplitAtCharOf(w: string, rest: string, ch: char)
    requires ch !in w
    requires rest == [] || rest[0] == ch
    ensures SplitAtChar(w + rest, ch) == (w, rest)
    decreases |w|
  {
    var s := w + rest;
    if w != [] {
      assert s[0] == w[0] != ch;
      assert s[1..] == w[1..] + rest;
      SplitAtCharOf(w[1..], rest, ch);
      assert [w[0]] + w[1..] == w;
    } else {
      assert s == rest;
    }
  }

  /** Text appended after an occurrence of ch does not move the cut. */
  lemma SplitAtCharAppend(s: string, t: string, ch: char)
    requires ch in s
    ensures SplitAtChar(s + t, ch) == (SplitAtChar(s, ch).0, SplitAtChar(s, ch).1 + t)
  {
    var (w, rest) := SplitAtChar(s, ch);
    assert rest != [] by {
      var j :| 0 <= j < |s| && s[j] == ch;
      assert j >= |w| ==> s[j] == rest[j - |w|];
    }
    assert s + t == w + (rest + t);
    SplitAtCharOf(w, rest + t, ch);
  }

  /** A string cut after its longest all-digit prefix: the digits a greedy
      `\d+` takes, and what follows them. */
  function SplitDigits(s: string): (r: (string, string))
    ensures s == r.0 + r.1
    ensures AllDigits(r.0)
    ensures r.1 == [] || !IsDigit(r.1[0])
    decreases |s|
  {
    if s != [] && IsDigit(s[0]) then
      var r := SplitDigits(s[1..]);
      assert s == [s[0]] + s[1..];
      ([s[0]] + r.0, r.1)
    else ([], s)
  }

  /** The cut is unique: digits followed by a non-digit are cut between the
      two. */
  lemma {:induction false} SplitDigitsOf(d: string, rest: string)
    requires AllDigits(d)
    requires rest == [] || !IsDigit(rest[0])
    ensures SplitDigits(d + rest) == (d, rest)
    decreases |d|
  {
    if d != [] {
      var s := d + rest;
      assert s[0] == d[0] && IsDigit(s[0]);
      assert s[1..] == d[1..] + rest;
      SplitDigitsOf(d[1..], rest);
      assert [d[0]] + d[1..] == d;
    } else {
      assert d + rest == rest;
    }
  }

  /** Text appended after a non-digit does not move the cut. */
  lemma SplitDigitsAppend(s: string, t: string)
    requires t == [] || !IsDigit(t[0])
    ensures SplitDigits(s + t) == (SplitDigits(s).0, SplitDigits(s).1 + t)
  {
    var r := SplitDigits(s);
    assert s + t == r.0 + (r.1 + t);
    NonDigitStart(r.1, t);
    SplitDigitsOf(r.0, r.1 + t);
  }

  lemma NonDigitStart(a: string, b: string)
    requires a == [] || !IsDigit(a[0])
    requires b == [] || !IsDigit(b[0])
    ensures a + b == [] || !IsDigit((a + b)[0])
  {
    if a == [] {
      assert a + b == b;
    }
  }

  /** str(n) for a natural number: the shortest digit string denoting n. */
  function NatToString(n: nat): (r: string)
    ensures |r| >= 1 && AllDigits(r)
    ensures r[0] != '0' || r == "0"
    ensures DecimalValue(r) == n
    decreases n
  {
    if n < 10 then [DigitChar(n)]
    else
      var r := NatToString(n / 10) + [DigitChar(n % 10)];
      assert r[..|r| - 1] == NatToString(n / 10);
      r
  }

  /** str(i) for any integer: a minus sign before the magnitude when negative. */
  function IntToString(i: int): (r: string)
    ensures i < 0 ==> |r| >= 2 && r[0] == '-' && AllDigits(r[1..]) && DecimalValue(r[1..]) == -i
    ensures i >= 0 ==> AllDigits(r) && DecimalValue(r) == i
  {
    if i < 0 then "-" + NatToString(-i) else NatToString(i)
  }

  // ---------------------------------------------------------------------------
  // subsequences

  /** a can be obtained from b by deleting elements. */
  predicate IsSubsequence<T(==)>(a: seq<T>, b: seq<T>)
    decreases |b|
  {
    if a == [] then true
    else if b == [] then false
    else (a[0] == b[0] && IsSubsequence(a[1..], b[1..])) || IsSubsequence(a, b[1..])
  }

  lemma SubsequenceSkip<T>(a: seq<T>, b: seq<T>)
    requires b != [] && IsSubsequence(a, b[1..])
    ensures IsSubsequence(a, b)
  {
  }

  lemma SubsequenceCons<T>(a: seq<T>, b: seq<T>)
    requires b != [] && IsSubsequence(a, b[1..])
    ensures IsSubsequence([b[0]] + a, b)
  {
    assert ([b[0]] + a)[1..] == a;
  }

  lemma {:induction false} SubsequenceMembers<T>(a: seq<T>, b: seq<T>)
    requires IsSubsequence(a, b)
    ensures forall x :: x in a ==> x in b
    decreases |b|
  {
    if a != [] {
      if a[0] == b[0] && IsSubsequence(a[1..], b[1..]) {
        SubsequenceMembers(a[1..], b[1..]);
        forall x | x in a ensures x in b {
          if x != a[0] { assert x in a[1..]; }
        }
      } else {
        SubsequenceMembers(a, b[1..]);
      }
    }
  }

  lemma {:induction false} SubsequenceLength<T>(a: seq<T>, b: seq<T>)
    requires IsSubsequence(a, b)
    ensures |a| <= |b|
    decreases |b|
  {
    if a != [] {
      if a[0] == b[0] && IsSubsequence(a[1..], b[1..]) {
        SubsequenceLength(a[1..], b[1..]);
      } else {
        SubsequenceLength(a, b[1..]);
      }
    }
  }

  /** R holds between every element and each later one. */
  ghost predicate Pairwise<T>(s: seq<T>, R: (T, T) -> bool) {
    forall i, j :: 0 <= i < j < |s| ==> R(s[i], s[j])
  }

  /** A pairwise relation survives deleting elements. */
  lemma {:induction false} PairwiseSubsequence<T>(a: seq<T>, b: seq<T>, R: (T, T) -> bool)
    requires IsSubsequence(a, b) && Pairwise(b, R)
    ensures Pairwise(a, R)
    decreases |b|
  {
    if a != [] {
      assert Pairwise(b[1..], R);
      if a[0] == b[0] && IsSubsequence(a[1..], b[1..]) {
        PairwiseSubsequence(a[1..], b[1..], R);
        SubsequenceMembers(a[1..], b[1..]);
        forall i, j | 0 <= i < j < |a| ensures R(a[i], a[j]) {
          if i == 0 {
            assert a[j] in a[1..];
            var m :| 0 <= m < |b[1..]| && b[1..][m] == a[j];
            assert R(b[0], b[m + 1]);
          } else {
            assert R(a[1..][i - 1], a[1..][j - 1]);
          }
        }
      } else {
        PairwiseSubsequence(a, b[1..], R);
      }
    }
  }
}
