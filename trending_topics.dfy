/** `extractHashtags` of frontend/src/components/TrendingTopics.jsx: tally the hashtags of the
    posts case-insensitively, sort the tallies by count, highest first, and keep five. */
module TrendingTopics {
  import opened Wrappers
  import opened Sequences
  import opened Text
  import opened Feed

  /** One entry of the result. */
  datatype Topic = Topic(tag: string, count: nat)

  /** The regular-expression class `\w`. */
  predicate IsWordChar(c: char) {
    ('a' <= c <= 'z') || ('A' <= c <= 'Z') || ('0' <= c <= '9') || c == '_'
  }

  /** A match of `#\w+`. */
  predicate IsTag(t: string) {
    |t| >= 2 && t[0] == '#' && forall i :: 1 <= i < |t| ==> IsWordChar(t[i])
  }

  /** The end of the run of word characters that starts at index j. */
  function RunEnd(s: string, j: nat): (k: nat)
    requires j <= |s|
    ensures j <= k <= |s|
    ensures forall i :: j <= i < k ==> IsWordChar(s[i])
    ensures k == |s| || !IsWordChar(s[k])
    decreases |s| - j
  {
    if j < |s| && IsWordChar(s[j]) then RunEnd(s, j + 1) else j
  }

  /** A match of `#\w+` begins at index i: a `#` followed by a word character. */
  predicate TagStart(s: string, i: nat) {
    i + 1 < |s| && s[i] == '#' && IsWordChar(s[i + 1])
  }

  /** The match that begins at a tag start: the `#` and the whole run of word characters after
      it. */
  function TagAt(s: string, i: nat): (t: string)
    requires TagStart(s, i)
    ensures IsTag(t)
    ensures i + |t| <= |s| && t == s[i..i + |t|]
    ensures i + |t| == |s| || !IsWordChar(s[i + |t|])
  {
    s[i..RunEnd(s, i + 1)]
  }

  /** The tag starts at or after index i, in increasing order: every index is examined, none is
      skipped. */
  function StartsFrom(s: string, i: nat): (r: seq<nat>)
    requires i <= |s|
    ensures forall k :: 0 <= k < |r| ==> i <= r[k] && TagStart(s, r[k])
    ensures forall k, l :: 0 <= k < l < |r| ==> r[k] < r[l]
    decreases |s| - i
  {
    if i == |s| then []
    else (if TagStart(s, i) then [i] else []) + StartsFrom(s, i + 1)
  }

  /** Every tag start at or after i is listed. */
  lemma {:induction false} StartsFromComplete(s: string, i: nat, j: nat)
    requires i <= j < |s| && TagStart(s, j)
    ensures j in StartsFrom(s, i)
    decreases j - i
  {
    if i < j {
      StartsFromComplete(s, i + 1, j);
    }
  }

  /** Every index of s at which a match of `#\w+` begins, in increasing order. */
  function TagStarts(s: string): (r: seq<nat>)
    ensures forall j :: j in r <==> TagStart(s, j)
    ensures forall k, l :: 0 <= k < l < |r| ==> r[k] < r[l]
  {
    var r := StartsFrom(s, 0);
    forall j | TagStart(s, j) ensures j in r {
      StartsFromComplete(s, 0, j);
    }
    r
  }

  /** No tag starts between a and b when none of those characters is a `#`. */
  lemma {:induction false} NoStartsBetween(s: string, a: nat, b: nat)
    requires a <= b <= |s|
    requires forall j :: a <= j < b ==> s[j] != '#'
    ensures StartsFrom(s, a) == StartsFrom(s, b)
    decreases b - a
  {
    if a < b {
      NoStartsBetween(s, a + 1, b);
    }
  }

  /** The left-to-right scan from index i: after a match it resumes right after the match. */
  function MatchFrom(s: string, i: nat): (r: seq<string>)
    requires i <= |s|
    ensures |r| == |StartsFrom(s, i)|
    ensures forall k :: 0 <= k < |r| ==> r[k] == TagAt(s, StartsFrom(s, i)[k])
    decreases |s| - i
  {
    if |s| - i < 2 then
      NoStartsNearEnd(s, i);
      []
    else if s[i] == '#' && IsWordChar(s[i + 1]) then
      var e := RunEnd(s, i + 1);
      var rest := MatchFrom(s, e);
      StartsAfterMatch(s, i, e);
      ConsMatch(s, i, StartsFrom(s, e), rest);
      [TagAt(s, i)] + rest
    else
      NoStartAt(s, i);
      MatchFrom(s, i + 1)
  }

  lemma NoStartsNearEnd(s: string, i: nat)
    requires i <= |s| < i + 2
    ensures StartsFrom(s, i) == []
  {
    if i < |s| {
      assert StartsFrom(s, i) == StartsFrom(s, i + 1);
    }
  }

  lemma NoStartAt(s: string, i: nat)
    requires i < |s| && !TagStart(s, i)
    ensures StartsFrom(s, i) == StartsFrom(s, i + 1)
  {
  }

  /** A match at i is the first tag start from i; the next ones follow its run. */
  lemma StartsAfterMatch(s: string, i: nat, e: nat)
    requires TagStart(s, i) && e == RunEnd(s, i + 1)
    ensures StartsFrom(s, i) == [i] + StartsFrom(s, e)
  {
    NoStartsBetween(s, i + 1, e);
  }

  /** Prepending a start and its match keeps the matches pointwise those of the starts. */
  lemma ConsMatch(s: string, i: nat, starts: seq<nat>, rest: seq<string>)
    requires TagStart(s, i)
    requires forall k :: 0 <= k < |starts| ==> TagStart(s, starts[k])
    requires |rest| == |starts|
    requires forall k :: 0 <= k < |rest| ==> rest[k] == TagAt(s, starts[k])
    ensures forall k :: 0 <= k < |rest| + 1 ==> ([TagAt(s, i)] + rest)[k] == TagAt(s, ([i] + starts)[k])
  {
    forall k | 0 <= k < |rest| + 1 ensures ([TagAt(s, i)] + rest)[k] == TagAt(s, ([i] + starts)[k]) {
      if k > 0 {
        assert ([TagAt(s, i)] + rest)[k] == rest[k - 1];
        assert ([i] + starts)[k] == starts[k - 1];
      }
    }
  }

  /** `s.match(/#\w+/g) || []`: one match for each index at which `#\w+` can begin, in order,
      each the `#` and the maximal run of word characters after it. No two candidates overlap,
      since a `#` is not a word character. */
  function MatchTags(s: string): (r: seq<string>)
    ensures forall t :: t in r ==> IsTag(t)
    ensures |r| == |TagStarts(s)|
    ensures forall k :: 0 <= k < |r| ==> r[k] == TagAt(s, TagStarts(s)[k])
  {
    MatchFrom(s, 0)
  }

  /** Each tag start yields its match, and each match is a tag at one of the starts. */
  lemma MatchTagsFindsEveryTag(s: string, i: nat)
    requires TagStart(s, i)
    ensures TagAt(s, i) in MatchTags(s)
  {
    var k :| 0 <= k < |TagStarts(s)| && TagStarts(s)[k] == i;
    assert MatchTags(s)[k] == TagAt(s, i);
  }

  /** Each string of ts, lowercased. */
  function LowerAll(ts: seq<string>): (r: seq<string>)
    ensures |r| == |ts|
    decreases |ts|
  {
    if ts == [] then [] else LowerAll(ts[..|ts| - 1]) + [ToLower(ts[|ts| - 1])]
  }

  /** The lowercased tags of one post; a post without content contributes none. */
  function PostTags(p: Post): (r: seq<string>)
  {
    if p.content.None? || p.content.value == [] then [] else LowerAll(MatchTags(p.content.value))
  }

  /** All lowercased tags of the posts, post by post. */
  function AllTags(posts: seq<Post>): (r: seq<string>)
    decreases |posts|
  {
    if posts == [] then [] else AllTags(posts[..|posts| - 1]) + PostTags(posts[|posts| - 1])
  }

  /** `Object.entries(tagCount)`: each tag once, in order of first appearance, with its number of
      occurrences. */
  function Tally(tags: seq<string>): (r: seq<Topic>)
    ensures |r| == |Dedup(tags)|
  {
    var keys := Dedup(tags);
    seq(|keys|, i requires 0 <= i < |keys| => Topic(keys[i], Count(tags, keys[i])))
  }

  /** Counts never increase along s. */
  ghost predicate ByCountDescending(s: seq<Topic>) {
    forall i, j :: 0 <= i < j < |s| ==> s[j].count <= s[i].count
  }

  /** Insert x in front of the first entry whose count is not larger (the comparator
      `b[1] - a[1]` is then <= 0). */
  function InsertByCount(x: Topic, s: seq<Topic>): (r: seq<Topic>)
    decreases |s|
  {
    if s == [] || s[0].count <= x.count then [x] + s else [s[0]] + InsertByCount(x, s[1..])
  }

  /** `sort((a, b) => b[1] - a[1])`, a stable sort. */
  function SortByCount(s: seq<Topic>): (r: seq<Topic>)
    decreases |s|
  {
    if s == [] then [] else InsertByCount(s[0], SortByCount(s[1..]))
  }

  /** The entries of s whose count is c, in order. */
  function WithCount(s: seq<Topic>, c: nat): (r: seq<Topic>)
    decreases |s|
  {
    if s == [] then [] else (if s[0].count == c then [s[0]] else []) + WithCount(s[1..], c)
  }

  /** `slice(0, 5)`. */
  function Top5(s: seq<Topic>): (r: seq<Topic>)
  {
    if |s| <= 5 then s else s[..5]
  }

  /** What `extractHashtags` returns. */
  function Trending(posts: Option<seq<Post>>): (r: seq<Topic>)
  {
    if posts.None? then [] else Top5(SortByCount(Tally(AllTags(posts.value))))
  }

  lemma {:induction false} InsertByCountPermutes(x: Topic, s: seq<Topic>)
    ensures multiset(InsertByCount(x, s)) == multiset(s) + multiset{x}
    decreases |s|
  {
    if s != [] && s[0].count > x.count {
      InsertByCountPermutes(x, s[1..]);
      assert s == [s[0]] + s[1..];
    }
  }

  lemma {:induction false} InsertByCountSorted(x: Topic, s: seq<Topic>)
    requires ByCountDescending(s)
    ensures ByCountDescending(InsertByCount(x, s))
    decreases |s|
  {
    if s == [] || s[0].count <= x.count {
      var r := [x] + s;
      forall i, j | 0 <= i < j < |r| ensures r[j].count <= r[i].count {
        if i == 0 {
          assert r[j] == s[j - 1];
          assert s[j - 1].count <= s[0].count;
        } else {
          assert r[i] == s[i - 1] && r[j] == s[j - 1];
        }
      }
    } else {
      var t := InsertByCount(x, s[1..]);
      assert ByCountDescending(s[1..]);
      InsertByCountSorted(x, s[1..]);
      InsertByCountBounded(x, s[1..], s[0].count);
      var r := [s[0]] + t;
      forall i, j | 0 <= i < j < |r| ensures r[j].count <= r[i].count {
        if i > 0 {
          assert r[i] == t[i - 1] && r[j] == t[j - 1];
        }
      }
    }
  }

  /** Insertion keeps every count under a bound that x and s already respect. */
  lemma InsertByCountBounded(x: Topic, s: seq<Topic>, b: nat)
    requires x.count <= b
    requires forall k :: 0 <= k < |s| ==> s[k].count <= b
    ensures forall k :: 0 <= k < |InsertByCount(x, s)| ==> InsertByCount(x, s)[k].count <= b
  {
    var t := InsertByCount(x, s);
    InsertByCountPermutes(x, s);
    forall k | 0 <= k < |t| ensures t[k].count <= b {
      assert t[k] in multiset(t);
      if t[k] != x {
        assert t[k] in s;
      }
    }
  }

  /** Inserting x into a sorted sequence puts it ahead of every entry with the same count. */
  lemma {:induction false} InsertByCountStable(x: Topic, s: seq<Topic>, c: nat)
    ensures WithCount(InsertByCount(x, s), c) == WithCount([x] + s, c)
    decreases |s|
  {
    assert ([x] + s)[1..] == s;
    if s != [] && s[0].count > x.count {
      var t := InsertByCount(x, s[1..]);
      InsertByCountStable(x, s[1..], c);
      assert ([s[0]] + t)[1..] == t;
      assert ([x] + s[1..])[1..] == s[1..];
    }
  }

  /** The sort orders by count, is a rearrangement, and keeps entries of equal count in their
      original relative order (it is stable). */
  lemma {:induction false} SortByCountCorrect(s: seq<Topic>)
    ensures ByCountDescending(SortByCount(s))
    ensures multiset(SortByCount(s)) == multiset(s)
    ensures forall c :: WithCount(SortByCount(s), c) == WithCount(s, c)
    decreases |s|
  {
    if s != [] {
      var t := SortByCount(s[1..]);
      SortByCountCorrect(s[1..]);
      InsertByCountSorted(s[0], t);
      InsertByCountPermutes(s[0], t);
      assert s == [s[0]] + s[1..];
      forall c ensures WithCount(SortByCount(s), c) == WithCount(s, c) {
        InsertByCountStable(s[0], t, c);
        assert ([s[0]] + t)[1..] == t;
      }
    }
  }

  /** The tally has one entry per distinct tag, each with its number of occurrences. */
  lemma TallyEntries(tags: seq<string>)
    ensures Distinct(Tally(tags))
    ensures forall e :: e in Tally(tags) ==> e.tag in tags && e.count == Count(tags, e.tag)
    ensures forall t :: t in tags ==> Topic(t, Count(tags, t)) in Tally(tags)
  {
    var keys := Dedup(tags);
    var r := Tally(tags);
    forall t | t in tags ensures Topic(t, Count(tags, t)) in r {
      var k :| 0 <= k < |keys| && keys[k] == t;
      assert r[k] == Topic(t, Count(tags, t));
    }
    forall i, j | 0 <= i < j < |r| ensures r[i] != r[j] {
      assert r[i].tag == keys[i] && r[j].tag == keys[j];
    }
  }

  /** Shape of the result: at most five entries, each tag at most once, each tag a lowercased
      `#\w+` match with a count of at least one that is its total number of occurrences over all
      posts, ordered by count, highest first. */
  lemma TrendingShape(posts: seq<Post>)
    ensures var r := Trending(Some(posts));
      var tags := AllTags(posts);
      && |r| <= 5
      && ByCountDescending(r)
      && (forall i, j :: 0 <= i < j < |r| ==> r[i].tag != r[j].tag)
      && (forall i :: 0 <= i < |r| ==> r[i].tag in tags && r[i].count == Count(tags, r[i].tag) && r[i].count >= 1)
  {
    var tags := AllTags(posts);
    var tally := Tally(tags);
    var sorted := SortByCount(tally);
    var r := Trending(Some(posts));
    SortByCountCorrect(tally);
    TallyEntries(tags);
    DistinctPermutation(sorted, tally);
    assert r == sorted[..|r|];
    forall i | 0 <= i < |r| ensures r[i].tag in tags && r[i].count == Count(tags, r[i].tag) {
      assert r[i] == sorted[i];
      assert sorted[i] in multiset(tally);
    }
    forall i, j | 0 <= i < j < |r| ensures r[i].tag != r[j].tag {
      assert r[i] != r[j];
    }
  }

  /** Nothing left out outranks what is kept: a tag missing from the result occurs no more often
      than the last kept one, and a tag can only be missing when five are kept. */
  lemma TrendingKeepsTheTopFive(posts: seq<Post>, t: string)
    requires t in AllTags(posts)
    ensures var r := Trending(Some(posts));
      (exists i :: 0 <= i < |r| && r[i].tag == t)
      || (|r| == 5 && Count(AllTags(posts), t) <= r[4].count)
  {
    var tags := AllTags(posts);
    var tally := Tally(tags);
    var sorted := SortByCount(tally);
    var r := Trending(Some(posts));
    SortByCountCorrect(tally);
    TallyEntries(tags);
    var e := Topic(t, Count(tags, t));
    assert e in multiset(sorted);
    var k :| 0 <= k < |sorted| && sorted[k] == e;
    if k < 5 {
      assert r[k] == e;
    } else {
      assert r[4] == sorted[4];
    }
  }

  /** Ties keep the order in which the tags first appeared: for every count, the tags with that
      count come out in the same order as in the tally. */
  lemma TrendingTiesKeepFirstAppearance(posts: seq<Post>, c: nat)
    ensures WithCount(SortByCount(Tally(AllTags(posts))), c) == WithCount(Tally(AllTags(posts)), c)
  {
    SortByCountCorrect(Tally(AllTags(posts)));
  }

  /** Every tallied tag is a `#\w+` match in lower case, so spellings that differ only in case
      (`#Job`, `#job`) are counted as one tag. */
  lemma {:induction false} AllTagsLowercase(posts: seq<Post>)
    ensures forall t :: t in AllTags(posts) ==> IsTag(t) && ToLower(t) == t
    decreases |posts|
  {
    if posts != [] {
      AllTagsLowercase(posts[..|posts| - 1]);
      var p := posts[|posts| - 1];
      if p.content.Some? && p.content.value != [] {
        LowerAllLowercase(MatchTags(p.content.value));
      }
    }
  }

  lemma {:induction false} LowerAllLowercase(ts: seq<string>)
    requires forall t :: t in ts ==> IsTag(t)
    ensures forall t :: t in LowerAll(ts) ==> IsTag(t) && ToLower(t) == t
    decreases |ts|
  {
    if ts != [] {
      var last := ts[|ts| - 1];
      LowerAllLowercase(ts[..|ts| - 1]);
      ToLowerIdempotent(last);
      assert IsTag(last);
    }
  }

  /** The tag list of tagCount's keys and values: keys in insertion order, one per distinct tag
      seen so far, each value the number of times its tag was seen. */
  ghost predicate Tallies(keys: seq<string>, tagCount: map<string, nat>, seen: seq<string>) {
    && keys == Dedup(seen)
    && (forall t :: t in tagCount <==> t in keys)
    && (forall t :: t in tagCount ==> tagCount[t] == Count(seen, t))
  }

  /** One `tagCount[normalized] = (tagCount[normalized] || 0) + 1` step, stated over the values
      after the update: a new tag is appended to the keys and every count stays exact. */
  lemma TallyStep(keys: seq<string>, tagCount: map<string, nat>, seen: seq<string>, x: string,
                  keys2: seq<string>, tagCount2: map<string, nat>)
    requires Tallies(keys, tagCount, seen)
    requires keys2 == if x in tagCount then keys else keys + [x]
    requires tagCount2 == tagCount[x := (if x in tagCount then tagCount[x] else 0) + 1]
    ensures Tallies(keys2, tagCount2, seen + [x])
  {
    DedupSnoc(seen, x);
    assert x in tagCount <==> x in seen;
    forall t | t in tagCount2 ensures tagCount2[t] == Count(seen + [x], t) {
      CountSnoc(seen, x, t);
    }
  }

  lemma TallyFromCounts(keys: seq<string>, tagCount: map<string, nat>, seen: seq<string>)
    requires Tallies(keys, tagCount, seen)
    ensures forall k :: 0 <= k < |keys| ==> keys[k] in tagCount
    ensures seq(|keys|, k requires 0 <= k < |keys| && keys[k] in tagCount => Topic(keys[k], tagCount[keys[k]])) == Tally(seen)
  {
  }

  lemma LowerAllSnoc(ts: seq<string>, j: nat)
    requires j < |ts|
    ensures LowerAll(ts[..j + 1]) == LowerAll(ts[..j]) + [ToLower(ts[j])]
  {
    assert ts[..j + 1][..j] == ts[..j];
  }

  lemma AllTagsSnoc(ps: seq<Post>, i: nat)
    requires i < |ps|
    ensures AllTags(ps[..i + 1]) == AllTags(ps[..i]) + PostTags(ps[i])
  {
    assert ps[..i + 1][..i] == ps[..i];
  }

  /** The inner `forEach` of `extractHashtags`: count each match of one post, lowercased, into
      the `tagCount` object (keys in insertion order in `keys`, values in `tagCount`). */
  method TallyMatches(keys: seq<string>, tagCount: map<string, nat>, matches: seq<string>, ghost seen: seq<string>)
    returns (keys': seq<string>, tagCount': map<string, nat>)
    requires Tallies(keys, tagCount, seen)
    ensures Tallies(keys', tagCount', seen + LowerAll(matches))
  {
    keys', tagCount' := keys, tagCount;
    ghost var done := seen;
    var j := 0;
    assert LowerAll(matches[..0]) == [];
    while j < |matches|
      invariant 0 <= j <= |matches|
      invariant done == seen + LowerAll(matches[..j])
      invariant Tallies(keys', tagCount', done)
    {
      var normalized := ToLower(matches[j]);
      var previous := if normalized in tagCount' then tagCount'[normalized] else 0;
      ghost var k0, t0 := keys', tagCount';
      if normalized !in tagCount' {
        keys' := keys' + [normalized];
      }
      tagCount' := tagCount'[normalized := previous + 1];
      TallyStep(k0, t0, done, normalized, keys', tagCount');
      LowerAllSnoc(matches, j);
      done := done + [normalized];
      j := j + 1;
    }
    assert matches[..j] == matches;
  }

  /** `extractHashtags`: the outer `forEach` runs over the posts, skipping those without content,
      and tallies each post's matches; then the entries are sorted, cut to five and returned. */
  method ExtractHashtags(posts: Option<seq<Post>>) returns (topics: seq<Topic>)
    ensures topics == Trending(posts)
  {
    if posts.None? {
      return [];
    }
    var ps := posts.value;
    var keys: seq<string> := [];
    var tagCount: map<string, nat> := map[];
    var i := 0;
    while i < |ps|
      invariant 0 <= i <= |ps|
      invariant Tallies(keys, tagCount, AllTags(ps[..i]))
    {
      var post := ps[i];
      AllTagsSnoc(ps, i);
      if post.content.Some? && post.content.value != [] {
        var matches := MatchTags(post.content.value);
        keys, tagCount := TallyMatches(keys, tagCount, matches, AllTags(ps[..i]));
      } else {
        assert AllTags(ps[..i + 1]) == AllTags(ps[..i]);
      }
      i := i + 1;
    }
    assert ps[..|ps|] == ps;
    TallyFromCounts(keys, tagCount, AllTags(ps));
    var entries := seq(|keys|, k requires 0 <= k < |keys| && keys[k] in tagCount => Topic(keys[k], tagCount[keys[k]]));
    var sorted := SortByCount(entries);
    topics := if |sorted| <= 5 then sorted else sorted[..5];
  }
}
