/** MarkdownTagger.merge_and_deduplicate_tags (md_tagger.py:207-243): count
    tags case-insensitively across all chunk lists, rank the keys by count with
    a stable sort, and give each key back an original spelling. */
module TagMerge {
  import opened Strings
  import opened Dedup

  /** One item of the `tag_counts` dictionary. */
  datatype Entry = Entry(key: string, count: nat)

  // ---------------------------------------------------------------------------
  // The tags that are counted

  /** The tags that pass `if tag:`. */
  function NonEmpty(tags: seq<string>): (r: seq<string>)
    ensures IsSubsequence(r, tags)
    ensures forall t :: t in r <==> t in tags && t != ""
    decreases |tags|
  {
    if tags == [] then []
    else if tags[0] == "" then NonEmpty(tags[1..])
    else [tags[0]] + NonEmpty(tags[1..])
  }

  /** Every counted tag, chunk by chunk (empty chunk lists contribute nothing). */
  function Flatten(all: seq<seq<string>>): seq<string>
    decreases |all|
  {
    if all == [] then [] else NonEmpty(all[0]) + Flatten(all[1..])
  }

  /** How many tags have key `key`. */
  function CountKey(tags: seq<string>, key: string): nat
    decreases |tags|
  {
    if tags == [] then 0
    else CountKey(tags[..|tags| - 1], key) + (if Lower(tags[|tags| - 1]) == key then 1 else 0)
  }

  /** Position of the first tag with key `key`, or |tags| when there is none. */
  function FirstPos(tags: seq<string>, key: string): (i: nat)
    ensures i <= |tags|
    ensures i < |tags| ==> Lower(tags[i]) == key
    ensures forall j :: 0 <= j < i ==> Lower(tags[j]) != key
    decreases |tags|
  {
    if tags == [] then 0
    else if Lower(tags[0]) == key then 0
    else 1 + FirstPos(tags[1..], key)
  }

  lemma FirstPosPresent(tags: seq<string>, key: string)
    ensures key in Keys(tags) <==> FirstPos(tags, key) < |tags|
  {
    var i := FirstPos(tags, key);
    if key in Keys(tags) {
      var t :| t in tags && Lower(t) == key;
      var j :| 0 <= j < |tags| && tags[j] == t;
      assert i <= j;
    }
    if i < |tags| {
      assert tags[i] in tags;
    }
  }

  lemma FirstPosAppend(tags: seq<string>, x: string, key: string)
    ensures key in Keys(tags) ==> FirstPos(tags + [x], key) == FirstPos(tags, key)
    ensures key !in Keys(tags) && Lower(x) == key ==> FirstPos(tags + [x], key) == |tags|
  {
    var ext := tags + [x];
    FirstPosPresent(tags, key);
    var i := FirstPos(tags, key);
    var i' := FirstPos(ext, key);
    if key in Keys(tags) {
      assert ext[i] == tags[i];
      forall j | 0 <= j < i ensures Lower(ext[j]) != key {
        assert ext[j] == tags[j];
      }
    } else if Lower(x) == key {
      assert ext[|tags|] == x;
      assert i' <= |tags|;
      forall j | 0 <= j < |tags| ensures Lower(ext[j]) != key {
        assert ext[j] == tags[j];
        assert tags[j] in tags;
      }
    }
  }

  lemma CountKeyAbsent(tags: seq<string>, key: string)
    requires key !in Keys(tags)
    ensures CountKey(tags, key) == 0
    decreases |tags|
  {
    if tags != [] {
      var p := tags[..|tags| - 1];
      KeysAppend(p, [tags[|tags| - 1]]);
      assert tags == p + [tags[|tags| - 1]];
      assert tags[|tags| - 1] in tags;
      CountKeyAbsent(p, key);
    }
  }

  // ---------------------------------------------------------------------------
  // Counting (md_tagger.py:215-224): an insertion-ordered dictionary

  function KeysOf(es: seq<Entry>): (ks: seq<string>)
    ensures |ks| == |es|
    ensures forall i :: 0 <= i < |es| ==> ks[i] == es[i].key
  {
    seq(|es|, i requires 0 <= i < |es| => es[i].key)
  }

  predicate Distinct<T(==)>(s: seq<T>) {
    forall i, j :: 0 <= i < j < |s| ==> s[i] != s[j]
  }

  /** `tag_counts[key] = tag_counts.get(key, 0) + 1`: the item with that key
      counts one more, or a new last item `key: 1` is added. */
  function Tally(es: seq<Entry>, key: string): seq<Entry> {
    if key in KeysOf(es) then
      seq(|es|, k requires 0 <= k < |es| =>
        if es[k].key == key then Entry(key, es[k].count + 1) else es[k])
    else es + [Entry(key, 1)]
  }

  /** es is the dictionary of counts of tags: one item per key, in first-seen
      order, each holding the number of tags with that key. */
  ghost predicate Tallies(es: seq<Entry>, tags: seq<string>) {
    && Distinct(KeysOf(es))
    && (forall k :: 0 <= k < |es| ==> es[k].count == CountKey(tags, es[k].key))
    && (forall key :: key in KeysOf(es) <==> key in Keys(tags))
    && Ordered(es, tags)
  }

  /** Items appear in the order their keys first occur among the tags. */
  ghost predicate Ordered(es: seq<Entry>, tags: seq<string>) {
    forall i, j :: 0 <= i < j < |es| ==> FirstPos(tags, es[i].key) < FirstPos(tags, es[j].key)
  }

  lemma CountKeySnoc(p: seq<string>, x: string, key: string)
    ensures CountKey(p + [x], key) == CountKey(p, key) + (if Lower(x) == key then 1 else 0)
  {
    assert (p + [x])[..|p|] == p;
  }

  lemma KeysSnoc(p: seq<string>, x: string)
    ensures Keys(p + [x]) == Keys(p) + {Lower(x)}
  {
    KeysAppend(p, [x]);
    assert Keys([x]) == {Lower(x)};
  }

  /** Every item's key is the key of some tag. */
  lemma KeysOfTallied(es: seq<Entry>, tags: seq<string>)
    requires forall key :: key in KeysOf(es) <==> key in Keys(tags)
    ensures forall k :: 0 <= k < |es| ==> es[k].key in Keys(tags)
  {
    forall k | 0 <= k < |es| ensures es[k].key in Keys(tags) {
      assert KeysOf(es)[k] == es[k].key;
    }
  }

  /** Counting one more tag whose key is already in the dictionary. */
  lemma TallyOld(prev: seq<Entry>, p: seq<string>, x: string)
    requires Tallies(prev, p)
    requires Lower(x) in Keys(p)
    ensures Tallies(Tally(prev, Lower(x)), p + [x])
  {
    var es := Tally(prev, Lower(x));
    assert KeysOf(es) == KeysOf(prev);
    KeysSnoc(p, x);
    KeysOfTallied(prev, p);
    forall k | 0 <= k < |es| ensures es[k].count == CountKey(p + [x], es[k].key) {
      CountKeySnoc(p, x, es[k].key);
    }
    OldOrdered(prev, es, p, x);
  }

  lemma OldOrdered(prev: seq<Entry>, es: seq<Entry>, p: seq<string>, x: string)
    requires Ordered(prev, p) && |es| == |prev|
    requires forall k :: 0 <= k < |prev| ==> es[k].key == prev[k].key && prev[k].key in Keys(p)
    ensures Ordered(es, p + [x])
  {
    forall i, j | 0 <= i < j < |es| ensures FirstPos(p + [x], es[i].key) < FirstPos(p + [x], es[j].key) {
      FirstPosAppend(p, x, es[i].key);
      FirstPosAppend(p, x, es[j].key);
    }
  }

  /** Counting one more tag whose key is new: it becomes the last item. */
  lemma TallyNew(prev: seq<Entry>, p: seq<string>, x: string)
    requires Tallies(prev, p)
    requires Lower(x) !in Keys(p)
    ensures Tallies(Tally(prev, Lower(x)), p + [x])
  {
    var key := Lower(x);
    var es := Tally(prev, key);
    assert es == prev + [Entry(key, 1)];
    assert KeysOf(es) == KeysOf(prev) + [key];
    KeysSnoc(p, x);
    KeysOfTallied(prev, p);
    NewCounts(prev, p, x);
    NewOrdered(prev, p, x);
  }

  lemma NewCounts(prev: seq<Entry>, p: seq<string>, x: string)
    requires Lower(x) !in Keys(p)
    requires forall k :: 0 <= k < |prev| ==> prev[k].count == CountKey(p, prev[k].key) && prev[k].key in Keys(p)
    ensures var es := prev + [Entry(Lower(x), 1)];
      forall k :: 0 <= k < |es| ==> es[k].count == CountKey(p + [x], es[k].key)
  {
    var es := prev + [Entry(Lower(x), 1)];
    CountKeyAbsent(p, Lower(x));
    forall k | 0 <= k < |es| ensures es[k].count == CountKey(p + [x], es[k].key) {
      CountKeySnoc(p, x, es[k].key);
    }
  }

  lemma NewOrdered(prev: seq<Entry>, p: seq<string>, x: string)
    requires Lower(x) !in Keys(p) && Ordered(prev, p)
    requires forall k :: 0 <= k < |prev| ==> prev[k].key in Keys(p)
    ensures Ordered(prev + [Entry(Lower(x), 1)], p + [x])
  {
    var es := prev + [Entry(Lower(x), 1)];
    FirstPosAppend(p, x, Lower(x));
    forall i, j | 0 <= i < j < |es| ensures FirstPos(p + [x], es[i].key) < FirstPos(p + [x], es[j].key) {
      FirstPosAppend(p, x, es[i].key);
      FirstPosPresent(p, es[i].key);
      FirstPosAppend(p, x, es[j].key);
    }
  }

  /** The dictionary after counting `tags` left to right. */
  function CountTags(tags: seq<string>): (es: seq<Entry>)
    ensures Tallies(es, tags)
    decreases |tags|
  {
    if tags == [] then []
    else
      var p := tags[..|tags| - 1];
      var x := tags[|tags| - 1];
      var prev := CountTags(p);
      assert tags == p + [x];
      if Lower(x) in Keys(p) then
        TallyOld(prev, p, x);
        Tally(prev, Lower(x))
      else
        TallyNew(prev, p, x);
        Tally(prev, Lower(x))
  }

  // ---------------------------------------------------------------------------
  // Ranking (md_tagger.py:227): sorted(..., key=count, reverse=True), stable

  /** Where x goes: before the first entry whose count does not exceed x's. */
  function InsertPos(x: Entry, s: seq<Entry>): (k: nat)
    ensures k <= |s|
    ensures forall i :: 0 <= i < k ==> s[i].count > x.count
    ensures k < |s| ==> s[k].count <= x.count
    decreases |s|
  {
    if s == [] || s[0].count <= x.count then 0 else 1 + InsertPos(x, s[1..])
  }

  function Insert(x: Entry, s: seq<Entry>): seq<Entry> {
    var k := InsertPos(x, s);
    s[..k] + [x] + s[k..]
  }

  /** Stable sort by descending count: each entry is inserted ahead of the
      equal-count entries that followed it. */
  function SortByCount(es: seq<Entry>): seq<Entry>
    decreases |es|
  {
    if es == [] then [] else Insert(es[0], SortByCount(es[1..]))
  }

  /** a ranks before b: a higher count, or the same count and seen earlier. */
  predicate Before(a: Entry, b: Entry, pos: string -> nat) {
    a.count > b.count || (a.count == b.count && pos(a.key) < pos(b.key))
  }

  /** The list after Insert: s before position k, then x, then the rest of s. */
  lemma InsertShape(x: Entry, s: seq<Entry>)
    ensures var k, r := InsertPos(x, s), Insert(x, s);
      && |r| == |s| + 1 && r[k] == x
      && (forall i :: 0 <= i < k ==> r[i] == s[i])
      && (forall i :: k < i < |r| ==> r[i] == s[i - 1])
  {
  }

  /** Insert adds x and keeps every entry of s. */
  lemma InsertPerm(x: Entry, s: seq<Entry>)
    ensures multiset(Insert(x, s)) == multiset(s) + multiset{x}
  {
    var k := InsertPos(x, s);
    var a, b := s[..k], s[k..];
    assert s == a + b;
    assert multiset(s) == multiset(a) + multiset(b);
    assert multiset(a + [x] + b) == multiset(a) + multiset{x} + multiset(b);
  }

  lemma InsertRanked(x: Entry, s: seq<Entry>, pos: string -> nat)
    requires forall i, j :: 0 <= i < j < |s| ==> Before(s[i], s[j], pos)
    requires forall i :: 0 <= i < |s| ==> pos(x.key) < pos(s[i].key)
    ensures var r := Insert(x, s);
      (forall i, j :: 0 <= i < j < |r| ==> Before(r[i], r[j], pos))
      && multiset(r) == multiset(s) + multiset{x}
  {
    var k := InsertPos(x, s);
    var r := Insert(x, s);
    InsertShape(x, s);
    InsertPerm(x, s);
    forall i, j | 0 <= i < j < |r| ensures Before(r[i], r[j], pos) {
      if j < k || i > k {
        assert Before(s[if i < k then i else i - 1], s[if j < k then j else j - 1], pos);
      } else if i < k && j > k {
        assert Before(s[i], s[j - 1], pos);
      } else if i == k {
        if j - 1 > k { assert Before(s[k], s[j - 1], pos); }
      }
    }
  }

  /** Entries later in a list ordered by position come after its head. */
  lemma HeadFirst(es: seq<Entry>, rest: seq<Entry>, pos: string -> nat)
    requires es != [] && multiset(rest) == multiset(es[1..])
    requires forall i, j :: 0 <= i < j < |es| ==> pos(es[i].key) < pos(es[j].key)
    ensures forall i :: 0 <= i < |rest| ==> pos(es[0].key) < pos(rest[i].key)
  {
    forall i | 0 <= i < |rest| ensures pos(es[0].key) < pos(rest[i].key) {
      assert rest[i] in multiset(es[1..]);
      var m :| 0 <= m < |es[1..]| && es[1..][m] == rest[i];
      assert es[m + 1] == rest[i];
    }
  }

  /** The stable sort yields a ranking when the input keys are in first-seen
      order, and it only reorders. */
  lemma {:induction false} SortByCountRanked(es: seq<Entry>, pos: string -> nat)
    requires forall i, j :: 0 <= i < j < |es| ==> pos(es[i].key) < pos(es[j].key)
    ensures forall i, j :: 0 <= i < j < |SortByCount(es)| ==> Before(SortByCount(es)[i], SortByCount(es)[j], pos)
    ensures multiset(SortByCount(es)) == multiset(es)
    decreases |es|
  {
    if es != [] {
      var rest := SortByCount(es[1..]);
      TailOrdered(es, pos);
      SortByCountRanked(es[1..], pos);
      HeadFirst(es, rest, pos);
      InsertRanked(es[0], rest, pos);
      ConsPerm(es);
    }
  }

  lemma TailOrdered(es: seq<Entry>, pos: string -> nat)
    requires es != []
    requires forall i, j :: 0 <= i < j < |es| ==> pos(es[i].key) < pos(es[j].key)
    ensures forall i, j :: 0 <= i < j < |es[1..]| ==> pos(es[1..][i].key) < pos(es[1..][j].key)
  {
  }

  lemma ConsPerm(es: seq<Entry>)
    requires es != []
    ensures multiset(es) == multiset(es[1..]) + multiset{es[0]}
  {
    assert es == [es[0]] + es[1..];
  }

  // ---------------------------------------------------------------------------
  // Original spellings (md_tagger.py:231-241)

  /** The first list that passes `if chunk_tags:`; its non-empty tags are the
      only place the recovery loop looks, because the guard at
      md_tagger.py:240 holds after every list it visits. */
  function FirstListTags(all: seq<seq<string>>): seq<string>
    decreases |all|
  {
    if all == [] then []
    else if |all[0]| > 0 then NonEmpty(all[0])
    else FirstListTags(all[1..])
  }

  function LowerAll(ts: seq<string>): (r: seq<string>)
    ensures |r| == |ts|
    ensures forall i :: 0 <= i < |ts| ==> r[i] == Lower(ts[i])
  {
    seq(|ts|, i requires 0 <= i < |ts| => Lower(ts[i]))
  }

  /** For each ranked key in turn, the first tag of `source` with that key; a
      key with no such tag contributes nothing. */
  function Recover(keys: seq<string>, source: seq<string>): (r: seq<string>)
    ensures IsSubsequence(LowerAll(r), keys)
    ensures forall t :: t in r ==> FirstWithKey(source, Lower(t)) == Some(t)
    ensures forall k :: k in keys && k in Keys(source) ==> k in Keys(r)
    ensures Keys(r) <= Keys(source)
    decreases |keys|
  {
    if keys == [] then []
    else
      var rest := Recover(keys[1..], source);
      match FirstWithKey(source, keys[0])
      case Some(t) =>
        RecoverHit(keys, source, t, rest);
        [t] + rest
      case None =>
        RecoverMiss(keys, source, rest);
        rest
  }

  /** What Recover promises about r, for the keys and the source it read. */
  ghost predicate Recovered(r: seq<string>, keys: seq<string>, source: seq<string>) {
    && IsSubsequence(LowerAll(r), keys)
    && (forall t :: t in r ==> FirstWithKey(source, Lower(t)) == Some(t))
    && (forall k :: k in keys && k in Keys(source) ==> k in Keys(r))
    && Keys(r) <= Keys(source)
  }

  lemma RecoverHit(keys: seq<string>, source: seq<string>, t: string, rest: seq<string>)
    requires keys != [] && FirstWithKey(source, keys[0]) == Some(t)
    requires Recovered(rest, keys[1..], source)
    ensures Recovered([t] + rest, keys, source)
  {
    LowerAllCons(t, rest, keys);
    HitKeys(keys, source, t, rest);
  }

  lemma LowerAllCons(t: string, rest: seq<string>, keys: seq<string>)
    requires keys != [] && Lower(t) == keys[0]
    requires IsSubsequence(LowerAll(rest), keys[1..])
    ensures IsSubsequence(LowerAll([t] + rest), keys)
  {
    var a := LowerAll([t] + rest);
    assert a[1..] == LowerAll(rest);
  }

  lemma HitKeys(keys: seq<string>, source: seq<string>, t: string, rest: seq<string>)
    requires keys != [] && FirstWithKey(source, keys[0]) == Some(t)
    requires forall k :: k in keys[1..] && k in Keys(source) ==> k in Keys(rest)
    requires Keys(rest) <= Keys(source)
    ensures forall k :: k in keys && k in Keys(source) ==> k in Keys([t] + rest)
    ensures Keys([t] + rest) <= Keys(source)
  {
    KeysAppend([t], rest);
    assert Keys([t]) == {keys[0]};
    forall k | k in keys && k in Keys(source) ensures k in Keys([t] + rest) {
      if k != keys[0] { assert k in keys[1..]; }
    }
  }

  lemma RecoverMiss(keys: seq<string>, source: seq<string>, rest: seq<string>)
    requires keys != [] && FirstWithKey(source, keys[0]).None?
    requires Recovered(rest, keys[1..], source)
    ensures Recovered(rest, keys, source)
  {
    forall k | k in keys && k in Keys(source) ensures k in Keys(rest) {
      if k != keys[0] { assert k in keys[1..]; }
    }
  }

  /** Keys ranked by descending count, ties in first-seen order. */
  ghost predicate RankedBy(keys: seq<string>, tags: seq<string>) {
    forall i, j :: 0 <= i < j < |keys| ==>
      || CountKey(tags, keys[i]) > CountKey(tags, keys[j])
      || (CountKey(tags, keys[i]) == CountKey(tags, keys[j]) && FirstPos(tags, keys[i]) < FirstPos(tags, keys[j]))
  }

  /** The ranked keys of all counted tags. */
  function RankedKeys(tags: seq<string>): (keys: seq<string>)
    ensures RankedBy(keys, tags)
    ensures forall k :: k in keys <==> k in Keys(tags)
  {
    var es := CountTags(tags);
    var sorted := SortByCount(es);
    SortByCountRanked(es, k => FirstPos(tags, k));
    SortedCounts(es, sorted, tags);
    SortedRanked(sorted, tags);
    KeysOf(sorted)
  }

  /** A reordering of the dictionary keeps its counts and its keys. */
  lemma SortedCounts(es: seq<Entry>, sorted: seq<Entry>, tags: seq<string>)
    requires Tallies(es, tags) && multiset(sorted) == multiset(es)
    ensures forall i :: 0 <= i < |sorted| ==> sorted[i].count == CountKey(tags, sorted[i].key)
    ensures forall k :: k in KeysOf(sorted) <==> k in Keys(tags)
  {
    assert forall e :: e in sorted <==> e in es by {
      assert forall e :: e in sorted <==> e in multiset(sorted);
      assert forall e :: e in es <==> e in multiset(es);
    }
    KeysOfTallied(es, tags);
    forall i | 0 <= i < |sorted| ensures sorted[i].count == CountKey(tags, sorted[i].key) {
      assert sorted[i] in es;
      var j :| 0 <= j < |es| && es[j] == sorted[i];
    }
    forall k | k in KeysOf(sorted) ensures k in Keys(tags) {
      var i :| 0 <= i < |sorted| && KeysOf(sorted)[i] == k;
      assert sorted[i] in es;
    }
    forall k | k in Keys(tags) ensures k in KeysOf(sorted) {
      var i :| 0 <= i < |es| && KeysOf(es)[i] == k;
      assert es[i] in sorted;
    }
  }

  /** Entries ordered by Before, each holding its key's count, rank their keys. */
  lemma SortedRanked(sorted: seq<Entry>, tags: seq<string>)
    requires forall i, j :: 0 <= i < j < |sorted| ==> Before(sorted[i], sorted[j], k => FirstPos(tags, k))
    requires forall i :: 0 <= i < |sorted| ==> sorted[i].count == CountKey(tags, sorted[i].key)
    ensures RankedBy(KeysOf(sorted), tags)
  {
    var keys := KeysOf(sorted);
    forall i, j | 0 <= i < j < |keys|
      ensures || CountKey(tags, keys[i]) > CountKey(tags, keys[j])
              || (CountKey(tags, keys[i]) == CountKey(tags, keys[j]) && FirstPos(tags, keys[i]) < FirstPos(tags, keys[j]))
    {
      assert Before(sorted[i], sorted[j], k => FirstPos(tags, k));
    }
  }

  /** A ranking never repeats a key. */
  lemma RankedDistinct(ts: seq<string>, tags: seq<string>)
    requires RankedBy(LowerAll(ts), tags)
    ensures KeysDistinct(ts)
  {
    forall i, j | 0 <= i < j < |ts| ensures Lower(ts[i]) != Lower(ts[j]) {
      assert LowerAll(ts)[i] == Lower(ts[i]) && LowerAll(ts)[j] == Lower(ts[j]);
    }
  }

  lemma RecoverRanked(keys: seq<string>, source: seq<string>, tags: seq<string>)
    requires RankedBy(keys, tags)
    ensures RankedBy(LowerAll(Recover(keys, source)), tags)
  {
    var R := (a: string, b: string) =>
      || CountKey(tags, a) > CountKey(tags, b)
      || (CountKey(tags, a) == CountKey(tags, b) && FirstPos(tags, a) < FirstPos(tags, b));
    assert Pairwise(keys, R);
    PairwiseSubsequence(LowerAll(Recover(keys, source)), keys, R);
  }

  /** merge_and_deduplicate_tags as written. */
  function MergeAndDeduplicate(all: seq<seq<string>>): (r: seq<string>)
    ensures all == [] ==> r == []
    ensures KeysDistinct(r)
    ensures RankedBy(LowerAll(r), Flatten(all))
    ensures forall t :: t in r ==> FirstWithKey(FirstListTags(all), Lower(t)) == Some(t)
    ensures Keys(r) == Keys(FirstListTags(all))
  {
    if all == [] then []
    else
      var tags := Flatten(all);
      var keys := RankedKeys(tags);
      var r := Recover(keys, FirstListTags(all));
      RecoverRanked(keys, FirstListTags(all), tags);
      RankedDistinct(r, tags);
      FirstListCounted(all);
      r
  }

  /** The tags of the first non-empty list are among the counted tags. */
  lemma {:induction false} FirstListCounted(all: seq<seq<string>>)
    ensures Keys(FirstListTags(all)) <= Keys(Flatten(all))
    decreases |all|
  {
    if all != [] {
      KeysAppend(NonEmpty(all[0]), Flatten(all[1..]));
      FirstListCounted(all[1..]);
    }
  }

  /** The evident intent: every counted key, spelled as it first appeared in
      any chunk list. */
  function MergeFirstSeen(all: seq<seq<string>>): (r: seq<string>)
    ensures KeysDistinct(r)
    ensures RankedBy(LowerAll(r), Flatten(all))
    ensures forall t :: t in r ==> FirstWithKey(Flatten(all), Lower(t)) == Some(t)
    ensures Keys(r) == Keys(Flatten(all))
  {
    var tags := Flatten(all);
    var keys := RankedKeys(tags);
    var r := Recover(keys, tags);
    RecoverRanked(keys, tags, tags);
    RankedDistinct(r, tags);
    r
  }

  /** The non-empty tags of the first non-empty list open the counted tags
      (the lists before it are empty). */
  lemma {:induction false} FirstListIsPrefix(all: seq<seq<string>>)
    ensures |FirstListTags(all)| <= |Flatten(all)|
    ensures Flatten(all)[..|FirstListTags(all)|] == FirstListTags(all)
    decreases |all|
  {
    if all != [] {
      if |all[0]| > 0 {
      } else {
        assert NonEmpty(all[0]) == [];
        assert Flatten(all) == Flatten(all[1..]);
        FirstListIsPrefix(all[1..]);
      }
    }
  }

  lemma {:induction false} FirstWithKeyPrefix(a: seq<string>, b: seq<string>, key: string)
    requires key in Keys(a)
    ensures FirstWithKey(a + b, key) == FirstWithKey(a, key)
    decreases |a|
  {
    assert (a + b)[0] == a[0];
    if Lower(a[0]) != key {
      assert Keys(a) == {Lower(a[0])} + Keys(a[1..]);
      assert (a + b)[1..] == a[1..] + b;
      FirstWithKeyPrefix(a[1..], b, key);
    }
  }

  /** Recovery depends only on the first spelling of each key it looks up. */
  lemma {:induction false} RecoverAgrees(keys: seq<string>, s1: seq<string>, s2: seq<string>)
    requires forall k :: k in keys ==> FirstWithKey(s1, k) == FirstWithKey(s2, k)
    ensures Recover(keys, s1) == Recover(keys, s2)
    decreases |keys|
  {
    if keys != [] {
      assert keys[0] in keys;
      assert forall k :: k in keys[1..] ==> k in keys;
      RecoverAgrees(keys[1..], s1, s2);
    }
  }

  /** When the first non-empty list already holds every key, the function as
      written and the first-seen version agree. */
  lemma AgreeWhenFirstListComplete(all: seq<seq<string>>)
    requires Keys(Flatten(all)) <= Keys(FirstListTags(all))
    ensures MergeAndDeduplicate(all) == MergeFirstSeen(all)
  {
    var tags := Flatten(all);
    var first := FirstListTags(all);
    var keys := RankedKeys(tags);
    if all != [] {
      FirstListIsPrefix(all);
      RecoverFromPrefix(keys, first, tags);
    } else {
      assert Keys(tags) == {};
    }
  }

  /** Looking keys up in a prefix that already holds them all gives the same
      spellings as looking them up in the whole list. */
  lemma RecoverFromPrefix(keys: seq<string>, first: seq<string>, tags: seq<string>)
    requires |first| <= |tags| && tags[..|first|] == first
    requires forall k :: k in keys ==> k in Keys(first)
    ensures Recover(keys, first) == Recover(keys, tags)
  {
    assert tags == first + tags[|first|..];
    forall k | k in keys ensures FirstWithKey(first, k) == FirstWithKey(tags, k) {
      FirstWithKeyPrefix(first, tags[|first|..], k);
    }
    RecoverAgrees(keys, first, tags);
  }

  /** For [["a", "b", "a"], ["b", "c"]] the counts are a:2, b:2, c:1, yet the
      merge as written returns only a and b. In general a tag whose key does not
      occur in the first non-empty chunk list is lost; the first-seen version
      keeps it. */
  lemma AsWrittenDropsLaterKeys(first: seq<string>, later: seq<string>, t: string)
    requires first != [] && t != "" && t in later
    requires Lower(t) !in Keys(first)
    ensures Lower(t) !in Keys(MergeAndDeduplicate([first, later]))
    ensures Lower(t) in Keys(MergeFirstSeen([first, later]))
  {
    var all := [first, later];
    assert FirstListTags(all) == NonEmpty(first);
    assert Keys(NonEmpty(first)) <= Keys(first) by {
      forall k | k in Keys(NonEmpty(first)) ensures k in Keys(first) {
        var u :| u in NonEmpty(first) && Lower(u) == k;
        assert u in first;
      }
    }
    assert all[1..] == [later] && [later][1..] == [];
    assert Flatten([later]) == NonEmpty(later) + Flatten([]);
    assert Flatten(all) == NonEmpty(first) + Flatten([later]);
    assert t in NonEmpty(later);
    KeysAppend(NonEmpty(first), NonEmpty(later) + []);
    assert Lower(t) in Keys(NonEmpty(later) + []);
  }
}
