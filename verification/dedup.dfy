/** Case-insensitive, first-occurrence-wins de-duplication of tag lists: the
    `seen`-set loop of update_frontmatter_with_tags, and the key relation the
    tag aggregator relies on. Two tags are the same when their lower-cased
    forms are equal. */
module Dedup {
  import opened Strings

  /** The lower-cased keys of a list of tags. */
  function Keys(xs: seq<string>): set<string> {
    set x | x in xs :: Lower(x)
  }

  /** No two entries share a key. */
  predicate KeysDistinct(xs: seq<string>) {
    forall i, j :: 0 <= i < j < |xs| ==> Lower(xs[i]) != Lower(xs[j])
  }

  /** The first entry of xs whose key is `key`. */
  function FirstWithKey(xs: seq<string>, key: string): (r: Option<string>)
    ensures r.Some? ==> r.value in xs && Lower(r.value) == key
    ensures r.None? <==> key !in Keys(xs)
  {
    if xs == [] then None
    else if Lower(xs[0]) == key then Some(xs[0])
    else
      var r := FirstWithKey(xs[1..], key);
      assert Keys(xs) == {Lower(xs[0])} + Keys(xs[1..]);
      r
  }

  /** Where the key first occurs in xs, or |xs| when it does not. */
  function FirstKeyIndex(xs: seq<string>, key: string): (p: nat)
    ensures p <= |xs|
    ensures p < |xs| <==> key in Keys(xs)
    ensures p < |xs| ==> Lower(xs[p]) == key
    ensures forall j :: 0 <= j < p ==> Lower(xs[j]) != key
    decreases |xs|
  {
    if xs == [] then 0
    else if Lower(xs[0]) == key then 0
    else
      KeysCons(xs);
      1 + FirstKeyIndex(xs[1..], key)
  }

  /** The entries of r appear in the order their keys first occur in xs. */
  predicate FirstSeenOrder(r: seq<string>, xs: seq<string>) {
    forall i, j :: 0 <= i < j < |r| ==> FirstKeyIndex(xs, Lower(r[i])) < FirstKeyIndex(xs, Lower(r[j]))
  }

  lemma KeysAppend(a: seq<string>, b: seq<string>)
    ensures Keys(a + b) == Keys(a) + Keys(b)
  {
    forall k | k in Keys(a + b) ensures k in Keys(a) + Keys(b) {
      var x :| x in a + b && Lower(x) == k;
      if x in a { assert k in Keys(a); } else { assert x in b; }
    }
  }

  lemma KeysCons(xs: seq<string>)
    requires xs != []
    ensures Keys(xs) == {Lower(xs[0])} + Keys(xs[1..])
  {
    assert xs == [xs[0]] + xs[1..];
    KeysAppend([xs[0]], xs[1..]);
    assert Keys([xs[0]]) == {Lower(xs[0])};
  }

  /** The loop of md_tagger.py:259-267 started with a non-empty `seen` set:
      keep an entry only when its key has not been seen yet. */
  function DedupFrom(xs: seq<string>, seen: set<string>): (r: seq<string>)
    ensures IsSubsequence(r, xs)
    ensures KeysDistinct(r)
    ensures Keys(r) == Keys(xs) - seen
    ensures FirstSeenOrder(r, xs)
    decreases |xs|
  {
    if xs == [] then []
    else if Lower(xs[0]) in seen then
      var rest := DedupFrom(xs[1..], seen);
      DedupSkip(xs, seen, rest);
      rest
    else
      var rest := DedupFrom(xs[1..], seen + {Lower(xs[0])});
      DedupKeep(xs, seen, rest);
      [xs[0]] + rest
  }

  lemma DedupSkip(xs: seq<string>, seen: set<string>, rest: seq<string>)
    requires xs != [] && Lower(xs[0]) in seen
    requires IsSubsequence(rest, xs[1..]) && Keys(rest) == Keys(xs[1..]) - seen
    requires FirstSeenOrder(rest, xs[1..])
    ensures IsSubsequence(rest, xs) && Keys(rest) == Keys(xs) - seen
    ensures FirstSeenOrder(rest, xs)
  {
    KeysCons(xs);
    SubsequenceSkip(rest, xs);
    OrderInTail(xs, rest);
  }

  /** Keys other than the head's sit one further along in xs than in its tail. */
  lemma OrderInTail(xs: seq<string>, rest: seq<string>)
    requires xs != [] && Lower(xs[0]) !in Keys(rest)
    requires FirstSeenOrder(rest, xs[1..])
    ensures FirstSeenOrder(rest, xs)
    ensures forall i :: 0 <= i < |rest| ==> 0 < FirstKeyIndex(xs, Lower(rest[i]))
  {
    forall i | 0 <= i < |rest|
      ensures FirstKeyIndex(xs, Lower(rest[i])) == 1 + FirstKeyIndex(xs[1..], Lower(rest[i]))
    {
      assert rest[i] in rest;
    }
  }

  lemma DedupKeep(xs: seq<string>, seen: set<string>, rest: seq<string>)
    requires xs != [] && Lower(xs[0]) !in seen
    requires IsSubsequence(rest, xs[1..]) && KeysDistinct(rest)
    requires Keys(rest) == Keys(xs[1..]) - (seen + {Lower(xs[0])})
    requires FirstSeenOrder(rest, xs[1..])
    ensures IsSubsequence([xs[0]] + rest, xs)
    ensures KeysDistinct([xs[0]] + rest)
    ensures Keys([xs[0]] + rest) == Keys(xs) - seen
    ensures FirstSeenOrder([xs[0]] + rest, xs)
  {
    OrderInTail(xs, rest);
    ConsOrder(xs, rest);
    KeysCons(xs);
    SubsequenceCons(rest, xs);
    ConsDistinct(xs[0], rest);
    KeysCons([xs[0]] + rest);
    assert ([xs[0]] + rest)[1..] == rest;
  }

  /** The head of xs goes in front of entries whose keys come later. */
  lemma ConsOrder(xs: seq<string>, rest: seq<string>)
    requires xs != [] && FirstSeenOrder(rest, xs)
    requires forall i :: 0 <= i < |rest| ==> 0 < FirstKeyIndex(xs, Lower(rest[i]))
    ensures FirstSeenOrder([xs[0]] + rest, xs)
  {
    var r := [xs[0]] + rest;
    forall i, j | 0 <= i < j < |r|
      ensures FirstKeyIndex(xs, Lower(r[i])) < FirstKeyIndex(xs, Lower(r[j]))
    {
      assert r[j] == rest[j - 1];
      if i > 0 { assert r[i] == rest[i - 1]; }
    }
  }

  /** A new key in front of a duplicate-free list keeps it duplicate-free. */
  lemma ConsDistinct(x: string, rest: seq<string>)
    requires KeysDistinct(rest) && Lower(x) !in Keys(rest)
    ensures KeysDistinct([x] + rest)
  {
    var r := [x] + rest;
    forall i, j | 0 <= i < j < |r| ensures Lower(r[i]) != Lower(r[j]) {
      assert r[j] == rest[j - 1] && rest[j - 1] in rest;
      if i > 0 { assert r[i] == rest[i - 1]; }
    }
  }

  /** First-occurrence, case-insensitive de-duplication. */
  function Dedup(xs: seq<string>): (r: seq<string>)
    ensures IsSubsequence(r, xs)
    ensures KeysDistinct(r)
    ensures Keys(r) == Keys(xs)
    ensures forall y :: y in r ==> FirstWithKey(xs, Lower(y)) == Some(y)
    ensures FirstSeenOrder(r, xs)
  {
    DedupFirstOccurrence(xs, {});
    DedupFrom(xs, {})
  }

  /** Each kept entry is the first entry of xs with its key. */
  lemma {:induction false} DedupFirstOccurrence(xs: seq<string>, seen: set<string>)
    ensures forall y :: y in DedupFrom(xs, seen) ==> FirstWithKey(xs, Lower(y)) == Some(y)
    decreases |xs|
  {
    if xs != [] {
      var key := Lower(xs[0]);
      if key in seen {
        DedupFirstOccurrence(xs[1..], seen);
        forall y | y in DedupFrom(xs, seen) ensures FirstWithKey(xs, Lower(y)) == Some(y) {
          assert Lower(y) !in seen;
        }
      } else {
        DedupFirstOccurrence(xs[1..], seen + {key});
        forall y | y in DedupFrom(xs, seen) ensures FirstWithKey(xs, Lower(y)) == Some(y) {
          if y != xs[0] {
            assert y in DedupFrom(xs[1..], seen + {key});
            assert Lower(y) != key;
          }
        }
      }
    }
  }

  /** De-duplicating a concatenation: the tail only contributes keys the head
      did not already claim. */
  lemma {:induction false} DedupFromAppend(a: seq<string>, b: seq<string>, seen: set<string>)
    ensures DedupFrom(a + b, seen) == DedupFrom(a, seen) + DedupFrom(b, seen + Keys(a))
    decreases |a|
  {
    if a == [] {
      assert a + b == b;
      assert Keys(a) == {};
      assert seen + Keys(a) == seen;
    } else {
      var key := Lower(a[0]);
      KeysCons(a);
      assert (a + b)[0] == a[0];
      assert (a + b)[1..] == a[1..] + b;
      if key in seen {
        DedupFromAppend(a[1..], b, seen);
        AppendSeen(a, b, seen);
      } else {
        DedupFromAppend(a[1..], b, seen + {key});
        AppendNew(a, b, seen);
      }
    }
  }

  lemma AppendSeen(a: seq<string>, b: seq<string>, seen: set<string>)
    requires a != [] && Lower(a[0]) in seen
    requires Keys(a) == {Lower(a[0])} + Keys(a[1..]) && (a + b)[0] == a[0] && (a + b)[1..] == a[1..] + b
    requires DedupFrom(a[1..] + b, seen) == DedupFrom(a[1..], seen) + DedupFrom(b, seen + Keys(a[1..]))
    ensures DedupFrom(a + b, seen) == DedupFrom(a, seen) + DedupFrom(b, seen + Keys(a))
  {
    assert seen + Keys(a[1..]) == seen + Keys(a);
  }

  lemma AppendNew(a: seq<string>, b: seq<string>, seen: set<string>)
    requires a != [] && Lower(a[0]) !in seen
    requires Keys(a) == {Lower(a[0])} + Keys(a[1..]) && (a + b)[0] == a[0] && (a + b)[1..] == a[1..] + b
    requires var seen' := seen + {Lower(a[0])};
      DedupFrom(a[1..] + b, seen') == DedupFrom(a[1..], seen') + DedupFrom(b, seen' + Keys(a[1..]))
    ensures DedupFrom(a + b, seen) == DedupFrom(a, seen) + DedupFrom(b, seen + Keys(a))
  {
    var seen' := seen + {Lower(a[0])};
    assert seen' + Keys(a[1..]) == seen + Keys(a);
    var x, y := DedupFrom(a[1..], seen'), DedupFrom(b, seen + Keys(a));
    assert [a[0]] + (x + y) == ([a[0]] + x) + y;
  }

  /** Entries whose keys are all already seen contribute nothing. */
  lemma DedupFromSeen(xs: seq<string>, seen: set<string>)
    requires Keys(xs) <= seen
    ensures DedupFrom(xs, seen) == []
  {
    var r := DedupFrom(xs, seen);
    assert forall y :: y in r ==> Lower(y) in Keys(r);
  }

  /** A list that is already free of key duplicates, none of them seen, is kept whole. */
  lemma {:induction false} DedupFromDistinct(xs: seq<string>, seen: set<string>)
    requires KeysDistinct(xs)
    requires Keys(xs) !! seen
    ensures DedupFrom(xs, seen) == xs
    decreases |xs|
  {
    if xs != [] {
      var key := Lower(xs[0]);
      KeysCons(xs);
      DistinctTail(xs);
      DedupFromDistinct(xs[1..], seen + {key});
    }
  }

  /** The tail of a duplicate-free list is duplicate-free and lacks the head's key. */
  lemma DistinctTail(xs: seq<string>)
    requires xs != [] && KeysDistinct(xs)
    ensures KeysDistinct(xs[1..]) && Lower(xs[0]) !in Keys(xs[1..])
  {
    forall y | y in xs[1..] ensures Lower(y) != Lower(xs[0]) {
      var j :| 0 <= j < |xs[1..]| && xs[1..][j] == y;
      assert xs[j + 1] == y;
    }
  }

  /** Dedup is idempotent. */
  lemma DedupIdempotent(xs: seq<string>)
    ensures Dedup(Dedup(xs)) == Dedup(xs)
  {
    DedupFromDistinct(Dedup(xs), {});
  }

  /** Appending entries whose keys are already present changes nothing. */
  lemma DedupAbsorbs(xs: seq<string>, ys: seq<string>)
    requires Keys(ys) <= Keys(xs)
    ensures Dedup(Dedup(xs) + ys) == Dedup(xs)
  {
    var d := Dedup(xs);
    DedupFromAppend(d, ys, {});
    DedupFromSeen(ys, {} + Keys(d));
    DedupIdempotent(xs);
  }
}
