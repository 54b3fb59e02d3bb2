/**
 * Pair-merge sub-word tokenizer: training and encoding (src/tokenize.rs).
 *
 * Training turns every corpus string into one token per character, counts
 * the adjacent non-special pairs, and repeatedly merges the most frequent
 * pair into a new token until the best count drops below `min_freq`.
 * Encoding replays the learned merges, in order, on a new string.
 *
 * The rayon chunks are processed one after another; each chunk collects
 * its count changes in a local delta map and applies it at its end, as in
 * the source.
 */
module Tokenize {
  import opened Wrappers
  import opened BloomFilter
  import opened Tokens
  import Chars

  // ---------------------------------------------------------------------
  // Pair count maps
  // ---------------------------------------------------------------------

  /** A `HashMap<Pair, i64>` of pair counts. */
  type Counts = map<Pair, int>

  /** The count `m` holds for `p`: zero when `p` is absent. */
  function Count(m: Counts, p: Pair): int {
    if p in m then m[p] else 0
  }

  /** No key is stored with count zero. */
  predicate NoZero(m: Counts) {
    forall p :: p in m ==> m[p] != 0
  }

  /**
   * `update_pair` on one map (src/tokenize.rs:17-34): the count of `p`
   * moves by `delta`, a key whose count reaches zero is removed, and an
   * absent key is inserted with `delta`.
   */
  function MapUpdatePair(m: Counts, p: Pair, delta: int): (r: Counts)
    ensures forall q :: Count(r, q) == Count(m, q) + (if q == p then delta else 0)
    ensures forall q :: q != p ==> (q in r <==> q in m)
    ensures p in m ==> (p in r <==> m[p] + delta != 0)
    ensures p !in m ==> p in r && r[p] == delta
    ensures NoZero(m) && delta != 0 ==> NoZero(r)
  {
    if p in m then
      if m[p] + delta == 0 then m - {p} else m[p := m[p] + delta]
    else
      m[p := delta]
  }

  /** The source's test: +3 then -3 leaves the key absent (src/tokenize.rs:262-269). */
  lemma UpdatePairExample(p: Pair)
    ensures MapUpdatePair(map[], p, 3) == map[p := 3]
    ensures p !in MapUpdatePair(MapUpdatePair(map[], p, 3), p, -3)
  {
  }

  /** Moves the count of every element of `ps` by `d`, one update per element (`d` is 1 or -1). */
  method UpdateAll(m: Counts, ps: seq<Pair>, d: int) returns (r: Counts)
    requires d == 1 || d == -1
    ensures forall q :: Count(r, q) == Count(m, q) + (if d == 1 then multiset(ps)[q] as int else -(multiset(ps)[q] as int))
    ensures NoZero(m) ==> NoZero(r)
  {
    r := m;
    for j := 0 to |ps|
      invariant forall q :: Count(r, q) == Count(m, q) + (if d == 1 then multiset(ps[..j])[q] as int else -(multiset(ps[..j])[q] as int))
      invariant NoZero(m) ==> NoZero(r)
    {
      assert ps[..j + 1] == ps[..j] + [ps[j]];
      r := MapUpdatePair(r, ps[j], d);
    }
    assert ps[..|ps|] == ps;
  }

  /** `(count, pair)` ordered as the source's tuples: count first, then the pair. */
  predicate Below(c1: int, p1: Pair, c2: int, p2: Pair) {
    c1 < c2 || (c1 == c2 && PairLe(p1, p2))
  }

  /**
   * `map_max_count` (src/tokenize.rs:75-77): the greatest `(count, pair)`
   * of one map, `None` when it is empty. The map's iteration order is
   * arbitrary, so the loop picks any remaining key.
   */
  method MapMaxCount(m: Counts) returns (r: Option<(int, Pair)>)
    ensures r.None? <==> m == map[]
    ensures r.Some? ==> r.value.1 in m && m[r.value.1] == r.value.0
    ensures r.Some? ==> forall q :: q in m ==> Below(m[q], q, r.value.0, r.value.1)
  {
    r := None;
    var remaining := m.Keys;
    while remaining != {}
      invariant remaining <= m.Keys
      invariant r.None? <==> remaining == m.Keys
      invariant r.Some? ==> r.value.1 in m && m[r.value.1] == r.value.0
      invariant r.Some? ==> forall q :: q in m && q !in remaining ==> Below(m[q], q, r.value.0, r.value.1)
      decreases remaining
    {
      var q :| q in remaining;
      if r.None? || Below(r.value.0, r.value.1, m[q], q) {
        r := Some((m[q], q));
      }
      remaining := remaining - {q};
    }
    if m != map[] {
      var q :| q in m;
      assert q in m.Keys;
    }
  }

  /** The shard that holds `p` among `n` shards: its hash modulo `n` (src/tokenize.rs:64-71). */
  function ShardIndex(p: Pair, n: nat): (k: nat)
    requires n > 0
    ensures k < n
  {
    PairHash(p) % n
  }

  // ---------------------------------------------------------------------
  // Sharded counts
  // ---------------------------------------------------------------------

  /** `PairCounts`: the counts split over shards by hash. */
  class PairCounts {
    var shards: seq<Counts>

    /** There is a shard, and every pair is stored only in its own shard. */
    ghost predicate Valid()
      reads this
    {
      && |shards| > 0
      && forall k, p :: 0 <= k < |shards| && p in shards[k] ==> k == ShardIndex(p, |shards|)
    }

    /** No shard stores a zero count. */
    ghost predicate NoZeros()
      reads this
    {
      forall k :: 0 <= k < |shards| ==> NoZero(shards[k])
    }

    /** The count of `p` over all shards: the union behaves like one map. */
    ghost function Total(p: Pair): int
      reads this
      requires Valid()
    {
      Count(shards[ShardIndex(p, |shards|)], p)
    }

    /** src/tokenize.rs:52-60: one empty shard per CPU. */
    constructor (cpus: nat)
      requires cpus > 0
      ensures Valid() && NoZeros()
      ensures |shards| == cpus
      ensures forall k :: 0 <= k < cpus ==> shards[k] == map[]
    {
      var s: seq<Counts> := [];
      for i := 0 to cpus
        invariant |s| == i
        invariant forall k :: 0 <= k < i ==> s[k] == map[]
      {
        s := s + [map[]];
      }
      shards := s;
    }

    /** `update_pair` on the shard of `p` (src/tokenize.rs:37-42). */
    method UpdatePair(p: Pair, delta: int)
      requires Valid()
      modifies this
      ensures Valid()
      ensures var k := ShardIndex(p, |old(shards)|);
              shards == old(shards)[k := MapUpdatePair(old(shards)[k], p, delta)]
      ensures forall q :: Total(q) == old(Total(q)) + (if q == p then delta else 0)
      ensures old(NoZeros()) && delta != 0 ==> NoZeros()
    {
      var k := ShardIndex(p, |shards|);
      shards := shards[k := MapUpdatePair(shards[k], p, delta)];
    }

    /**
     * `apply` (src/tokenize.rs:86-91): every entry of `delta` is added to
     * its shard, in the map's (arbitrary) iteration order.
     */
    method Apply(delta: Counts)
      requires Valid()
      modifies this
      ensures Valid()
      ensures |shards| == old(|shards|)
      ensures forall q :: Total(q) == old(Total(q)) + Count(delta, q)
      ensures old(NoZeros()) && NoZero(delta) ==> NoZeros()
    {
      var remaining := delta;
      while remaining != map[]
        invariant Valid()
        invariant |shards| == old(|shards|)
        invariant forall q :: q in remaining ==> q in delta && remaining[q] == delta[q]
        invariant forall q :: Total(q) == old(Total(q)) + Count(delta, q) - Count(remaining, q)
        invariant old(NoZeros()) && NoZero(delta) ==> NoZeros()
        decreases |remaining|
      {
        var p :| p in remaining;
        UpdatePair(p, remaining[p]);
        remaining := remaining - {p};
      }
    }

    /**
     * `max` (src/tokenize.rs:81-83): the greatest `(count, pair)` over all
     * shards, `None` exactly when every shard is empty.
     */
    method Max() returns (r: Option<(int, Pair)>)
      ensures r.None? <==> forall k :: 0 <= k < |shards| ==> shards[k] == map[]
      ensures r.Some? ==> exists k :: 0 <= k < |shards| && r.value.1 in shards[k] && shards[k][r.value.1] == r.value.0
      ensures r.Some? ==> forall k, q :: 0 <= k < |shards| && q in shards[k] ==> Below(shards[k][q], q, r.value.0, r.value.1)
    {
      r := None;
      ghost var at := 0;
      for k := 0 to |shards|
        invariant r.None? <==> forall j :: 0 <= j < k ==> shards[j] == map[]
        invariant r.Some? ==> 0 <= at < k && r.value.1 in shards[at] && shards[at][r.value.1] == r.value.0
        invariant r.Some? ==> forall j, q :: 0 <= j < k && q in shards[j] ==> Below(shards[j][q], q, r.value.0, r.value.1)
      {
        var best := MapMaxCount(shards[k]);
        if best.Some? && (r.None? || Below(r.value.0, r.value.1, best.value.0, best.value.1)) {
          r := best;
          at := k;
        }
      }
    }
  }

  /** With the shard invariant, `Max` is the greatest `(Total, pair)` among the non-zero totals. */
  lemma MaxIsGreatestTotal(pc: PairCounts, c: int, p: Pair)
    requires pc.Valid()
    requires exists k :: 0 <= k < |pc.shards| && p in pc.shards[k] && pc.shards[k][p] == c
    requires forall k, q :: 0 <= k < |pc.shards| && q in pc.shards[k] ==> Below(pc.shards[k][q], q, c, p)
    ensures pc.Total(p) == c
    ensures forall q :: pc.Total(q) != 0 ==> Below(pc.Total(q), q, c, p)
  {
  }

  /** The source's test: one pair with count 5 is the maximum; after -5 nothing is left (src/tokenize.rs:271-281). */
  method ExampleCountsMax(cpus: nat, p: Pair) returns (first: Option<(int, Pair)>, second: Option<(int, Pair)>)
    requires cpus > 0
    ensures first == Some((5, p))
    ensures second.None?
  {
    var pc := new PairCounts(cpus);
    pc.UpdatePair(p, 5);
    assert pc.shards[ShardIndex(p, cpus)] == map[p := 5];
    first := pc.Max();
    assert pc.Total(p) == 5;
    MaxIsGreatestTotal(pc, first.value.0, first.value.1);
    pc.UpdatePair(p, -5);
    assert map[p := 5] - {p} == map[];
    assert pc.shards[ShardIndex(p, cpus)] == map[];
    second := pc.Max();
  }

  // ---------------------------------------------------------------------
  // The corpus and what a merge round does to it
  // ---------------------------------------------------------------------

  /** The token lists of a corpus of token sequences. */
  function Lists(strs: seq<Tokens>): (r: seq<seq<Token>>)
    ensures |r| == |strs|
    ensures forall i :: 0 <= i < |strs| ==> r[i] == strs[i].tokens
  {
    seq(|strs|, i requires 0 <= i < |strs| => strs[i].tokens)
  }

  /** Every pair `pairs` yields over the whole corpus, with multiplicity. */
  function PairBag(tss: seq<seq<Token>>, last: Token): multiset<Pair> {
    if tss == [] then multiset{}
    else PairBag(tss[..|tss| - 1], last) + multiset(Pairs(tss[|tss| - 1], last))
  }

  /** The same bag, read straight off the strings. */
  function Bag(strs: seq<Tokens>, last: Token): multiset<Pair> {
    if strs == [] then multiset{}
    else Bag(strs[..|strs| - 1], last) + multiset(Pairs(strs[|strs| - 1].tokens, last))
  }

  lemma {:induction false} BagIsPairBag(strs: seq<Tokens>, last: Token)
    ensures Bag(strs, last) == PairBag(Lists(strs), last)
  {
    if strs != [] {
      var n := |strs|;
      assert Lists(strs)[..n - 1] == Lists(strs[..n - 1]);
      BagIsPairBag(strs[..n - 1], last);
    }
  }

  lemma BagPush(strs: seq<Tokens>, s: Tokens, last: Token)
    ensures Bag(strs + [s], last) == Bag(strs, last) + multiset(Pairs(s.tokens, last))
  {
    assert (strs + [s])[..|strs|] == strs;
  }

  lemma BagSnoc(strs: seq<Tokens>, i: nat, last: Token)
    requires i < |strs|
    ensures Bag(strs[..i + 1], last) == Bag(strs[..i], last) + multiset(Pairs(strs[i].tokens, last))
  {
    assert strs[..i + 1][..i] == strs[..i];
  }

  lemma {:induction false} BagAppend(xs: seq<Tokens>, ys: seq<Tokens>, last: Token)
    ensures Bag(xs + ys, last) == Bag(xs, last) + Bag(ys, last)
  {
    if ys != [] {
      var n := |ys|;
      assert (xs + ys)[..|xs + ys| - 1] == xs + ys[..n - 1];
      BagAppend(xs, ys[..n - 1], last);
    } else {
      assert xs + ys == xs;
    }
  }

  lemma SpliceIndex<T>(a: seq<T>, start: nat, end: nat, c: seq<T>)
    requires start <= end <= |a| && |c| == end - start
    ensures |a[..start] + c + a[end..]| == |a|
    ensures forall j :: 0 <= j < start || end <= j < |a| ==> (a[..start] + c + a[end..])[j] == a[j]
    ensures forall j :: start <= j < end ==> (a[..start] + c + a[end..])[j] == c[j - start]
  {
  }

  /** Replacing the slice `start .. end` by `c` swaps the slice's pairs for those of `c`. */
  lemma SpliceBag(strs: seq<Tokens>, start: nat, end: nat, c: seq<Tokens>, last: Token)
    requires start <= end <= |strs|
    ensures Bag(strs[..start] + c + strs[end..], last) + Bag(strs[start..end], last)
            == Bag(strs, last) + Bag(c, last)
  {
    var a, b, d := strs[..start], strs[start..end], strs[end..];
    assert strs == a + b + d;
    BagAppend(a + b, d, last);
    BagAppend(a, b, last);
    BagAppend(a + c, d, last);
    BagAppend(a, c, last);
  }

  /** How often `pairs` yields `p` over the whole corpus. */
  function Occurrences(tss: seq<seq<Token>>, last: Token, p: Pair): nat {
    PairBag(tss, last)[p]
  }

  /** A pair counted in the corpus is yielded by one of its sequences. */
  lemma {:induction false} OccurrencesWitness(tss: seq<seq<Token>>, last: Token, p: Pair) returns (i: nat)
    requires Occurrences(tss, last, p) > 0
    ensures i < |tss| && p in Pairs(tss[i], last)
  {
    var n := |tss|;
    if Occurrences(tss[..n - 1], last, p) > 0 {
      i := OccurrencesWitness(tss[..n - 1], last, p);
      assert tss[..n - 1][i] == tss[i];
    } else {
      i := n - 1;
    }
  }

  /** One merge round: every sequence rewritten with `p` merged into `m`. */
  function RoundOf(tss: seq<seq<Token>>, p: Pair, m: Token): (r: seq<seq<Token>>)
    ensures |r| == |tss|
  {
    seq(|tss|, i requires 0 <= i < |tss| => Replace(tss[i], p, m))
  }

  /** The total number of tokens in the corpus. */
  function TotalLength(tss: seq<seq<Token>>): nat {
    if tss == [] then 0 else TotalLength(tss[..|tss| - 1]) + |tss[|tss| - 1]|
  }

  lemma {:induction false} RoundNoLonger(tss: seq<seq<Token>>, p: Pair, m: Token)
    ensures TotalLength(RoundOf(tss, p, m)) <= TotalLength(tss)
  {
    if tss != [] {
      var n := |tss|;
      assert RoundOf(tss, p, m)[..n - 1] == RoundOf(tss[..n - 1], p, m);
      RoundNoLonger(tss[..n - 1], p, m);
      ReplaceLength(tss[n - 1], p, m);
    }
  }

  /** A round merging a pair that occurs strictly shortens the corpus: training terminates. */
  lemma {:induction false} RoundShrinks(tss: seq<seq<Token>>, last: Token, p: Pair, m: Token)
    requires Occurrences(tss, last, p) > 0
    ensures TotalLength(RoundOf(tss, p, m)) < TotalLength(tss)
  {
    var n := |tss|;
    assert RoundOf(tss, p, m)[..n - 1] == RoundOf(tss[..n - 1], p, m);
    ReplaceLength(tss[n - 1], p, m);
    if Occurrences(tss[..n - 1], last, p) > 0 {
      RoundShrinks(tss[..n - 1], last, p, m);
    } else {
      RoundNoLonger(tss[..n - 1], p, m);
      assert p in Pairs(tss[n - 1], last);
      PairsIff(tss[n - 1], last, p);
      ReplacementsOccurs(tss[n - 1], p);
    }
  }

  /** The corpus after the merges of `merges`, applied in order. */
  function Replay(tss: seq<seq<Token>>, merges: seq<(Pair, Token)>): (r: seq<seq<Token>>)
    ensures |r| == |tss|
  {
    if merges == [] then tss
    else
      var (p, m) := merges[|merges| - 1];
      RoundOf(Replay(tss, merges[..|merges| - 1]), p, m)
  }

  /** `p` has the greatest `(count, pair)` among the pairs present in the corpus. */
  ghost predicate IsTop(tss: seq<seq<Token>>, last: Token, p: Pair) {
    && Occurrences(tss, last, p) > 0
    && forall q :: Occurrences(tss, last, q) > 0 ==>
         Below(Occurrences(tss, last, q), q, Occurrences(tss, last, p), p)
  }

  /** No pair reaches the threshold: training has nothing left to merge. */
  ghost predicate Stopped(tss: seq<seq<Token>>, last: Token, minFreq: int) {
    forall q :: Occurrences(tss, last, q) < minFreq
  }

  /**
   * Every recorded merge, in order, was the top pair of the corpus as the
   * earlier merges left it, with a count of at least `minFreq`.
   */
  ghost predicate Learned(tss: seq<seq<Token>>, merges: seq<(Pair, Token)>, last: Token, minFreq: int) {
    forall k :: 0 <= k < |merges| ==>
      && IsTop(Replay(tss, merges[..k]), last, merges[k].0)
      && Occurrences(Replay(tss, merges[..k]), last, merges[k].0) >= minFreq
  }

  lemma LearnedExtend(tss: seq<seq<Token>>, merges: seq<(Pair, Token)>, last: Token, minFreq: int, p: Pair, m: Token)
    requires Learned(tss, merges, last, minFreq)
    requires IsTop(Replay(tss, merges), last, p)
    requires Occurrences(Replay(tss, merges), last, p) >= minFreq
    ensures Learned(tss, merges + [(p, m)], last, minFreq)
    ensures Replay(tss, merges + [(p, m)]) == RoundOf(Replay(tss, merges), p, m)
  {
    var more := merges + [(p, m)];
    assert more[..|merges|] == merges;
    forall k | 0 <= k < |merges|
      ensures more[..k] == merges[..k]
    {
    }
  }

  /**
   * Every merge joins two non-special tokens into a non-special token
   * spelling their concatenation.
   */
  ghost predicate MergesSound(strs: map<Token, string>, merges: seq<(Pair, Token)>, last: Token) {
    forall k :: 0 <= k < |merges| ==>
      && merges[k].0.a > last && merges[k].0.b > last && merges[k].1 > last
      && merges[k].0.a in strs && merges[k].0.b in strs && merges[k].1 in strs
      && strs[merges[k].1] == strs[merges[k].0.a] + strs[merges[k].0.b]
  }

  // ---------------------------------------------------------------------
  // Replaying merges on one sequence
  // ---------------------------------------------------------------------

  /** One sequence after the merges of `merges`, applied in order. */
  function ApplyMerges(ts: seq<Token>, merges: seq<(Pair, Token)>): seq<Token> {
    if merges == [] then ts
    else
      var (p, m) := merges[|merges| - 1];
      Replace(ApplyMerges(ts, merges[..|merges| - 1]), p, m)
  }

  /** What training does to each corpus sequence is what `ApplyMerges` does to it alone. */
  lemma {:induction false} ReplayIsApplyMerges(tss: seq<seq<Token>>, merges: seq<(Pair, Token)>, i: nat)
    requires i < |tss|
    ensures Replay(tss, merges)[i] == ApplyMerges(tss[i], merges)
  {
    if merges != [] {
      ReplayIsApplyMerges(tss, merges[..|merges| - 1], i);
    }
  }

  /** Sound merges never change the text a sequence spells. */
  lemma {:induction false} ApplyMergesDecode(strs: map<Token, string>, ts: seq<Token>, merges: seq<(Pair, Token)>, last: Token)
    requires MergesSound(strs, merges, last)
    requires Known(strs, ts)
    ensures Known(strs, ApplyMerges(ts, merges))
    ensures Decode(strs, ApplyMerges(ts, merges)) == Decode(strs, ts)
  {
    if merges != [] {
      var init := merges[..|merges| - 1];
      assert MergesSound(strs, init, last) by {
        forall k | 0 <= k < |init| ensures init[k] == merges[k] { }
      }
      ApplyMergesDecode(strs, ts, init, last);
      var (p, m) := merges[|merges| - 1];
      ReplaceDecode(strs, ApplyMerges(ts, init), p, m);
    }
  }

  /** Sound merges never merge special tokens away: each occurs as often as before. */
  lemma {:induction false} ApplyMergesKeepsSpecials(strs: map<Token, string>, ts: seq<Token>, merges: seq<(Pair, Token)>, last: Token, t: Token)
    requires MergesSound(strs, merges, last)
    requires t <= last
    ensures multiset(ApplyMerges(ts, merges))[t] == multiset(ts)[t]
  {
    if merges != [] {
      var init := merges[..|merges| - 1];
      assert MergesSound(strs, init, last) by {
        forall k | 0 <= k < |init| ensures init[k] == merges[k] { }
      }
      ApplyMergesKeepsSpecials(strs, ts, init, last, t);
      var (p, m) := merges[|merges| - 1];
      ReplaceKeepsSpecials(ApplyMerges(ts, init), p, m, last, t);
    }
  }


  /**
   * What encoding `s` promises, given a vocabulary whose maps are inverse
   * and in which id 0 has a spelling: the result is spelled by the
   * vocabulary, spells `s` when every character of `s` is known, and keeps
   * every special token.
   */
  lemma EncodingFacts(strToken: map<string, Token>, tokenStr: map<Token, string>, s: string,
                      merges: seq<(Pair, Token)>, last: Token)
    requires forall x :: x in strToken ==> strToken[x] in tokenStr && tokenStr[strToken[x]] == x
    requires 0 in tokenStr
    requires MergesSound(tokenStr, merges, last)
    ensures Known(tokenStr, ApplyMerges(CharIds(strToken, s), merges))
    ensures (forall i :: 0 <= i < |s| ==> [s[i]] in strToken) ==>
              Decode(tokenStr, ApplyMerges(CharIds(strToken, s), merges)) == s
    ensures forall t: Token :: t <= last ==>
              multiset(ApplyMerges(CharIds(strToken, s), merges))[t] == multiset(CharIds(strToken, s))[t]
  {
    var ids: seq<Token> := CharIds(strToken, s);
    ApplyMergesDecode(tokenStr, ids, merges, last);
    if forall i :: 0 <= i < |s| ==> [s[i]] in strToken {
      CharIdsDecode(strToken, tokenStr, s);
    }
    forall t: Token | t <= last
      ensures multiset(ApplyMerges(ids, merges))[t] == multiset(ids)[t]
    {
      ApplyMergesKeepsSpecials(tokenStr, ids, merges, last, t);
    }
  }

  /** Per-character ids of known characters spell the string back. */
  lemma {:induction false} CharIdsDecode(strToken: map<string, Token>, tokenStr: map<Token, string>, s: string)
    requires forall x :: x in strToken ==> strToken[x] in tokenStr && tokenStr[strToken[x]] == x
    requires forall i :: 0 <= i < |s| ==> [s[i]] in strToken
    ensures Known(tokenStr, CharIds(strToken, s))
    ensures Decode(tokenStr, CharIds(strToken, s)) == s
  {
    if s != [] {
      CharIdsDecode(strToken, tokenStr, s[1..]);
      assert CharIds(strToken, s)[1..] == CharIds(strToken, s[1..]);
      assert s == [s[0]] + s[1..];
    }
  }

  // ---------------------------------------------------------------------
  // The trained tokenizer
  // ---------------------------------------------------------------------

  /** `PairTokenizer`: the vocabulary and the merges in the order they were learned. */
  class PairTokenizer {
    var tokenMap: TokenMap
    var merges: seq<(Pair, Token)>

    ghost predicate Valid()
      reads this, tokenMap
    {
      tokenMap.Valid() && MergesSound(tokenMap.tokenStr, merges, tokenMap.LastSpecial())
    }

    constructor (tokenMap: TokenMap, merges: seq<(Pair, Token)>)
      ensures this.tokenMap == tokenMap && this.merges == merges
    {
      this.tokenMap := tokenMap;
      this.merges := merges;
    }

    /**
     * `tokenize` (src/tokenize.rs:235-250): per-character ids, then each
     * learned merge in order. A merge is tried only when the sequence's
     * filter reports its pair, which loses nothing.
     */
    method Tokenize(s: string) returns (r: Tokens)
      requires Valid()
      ensures r.tokens == ApplyMerges(CharIds(tokenMap.strToken, s), merges)
      ensures BloomCurrent(r, tokenMap.LastSpecial())
      ensures Known(tokenMap.tokenStr, r.tokens)
      ensures (forall i :: 0 <= i < |s| ==> [s[i]] in tokenMap.strToken) ==> Decode(tokenMap.tokenStr, r.tokens) == s
      ensures forall t: Token :: t <= tokenMap.LastSpecial() ==>
                multiset(r.tokens)[t] == multiset(CharIds(tokenMap.strToken, s))[t]
    {
      var tokens := FromStrOrUnknown(s, tokenMap);
      ghost var start := tokens.tokens;
      assert start == CharIds(tokenMap.strToken, s);
      ghost var last := tokenMap.LastSpecial();
      assert MergesSound(tokenMap.tokenStr, merges, last);
      for i := 0 to |merges|
        invariant tokens.tokens == ApplyMerges(start, merges[..i])
        invariant BloomCurrent(tokens, last)
      {
        var (pair, merged) := merges[i];
        assert pair.a > last && pair.b > last;
        assert merges[..i + 1][..i] == merges[..i];
        if Contains(tokens, PairMask(pair)) {
          var tmp, changed := FromReplace(tokenMap, tokens, pair, merged);
          if changed {
            tokens := tmp;
          } else {
            ReplaceAbsent(tokens.tokens, pair, merged);
          }
        } else {
          SkipIsSound(tokens, last, pair, merged);
        }
      }
      assert merges[..|merges|] == merges;
      r := tokens;
      EncodingFacts(tokenMap.strToken, tokenMap.tokenStr, s, merges, last);
    }
  }

  // ---------------------------------------------------------------------
  // Training
  // ---------------------------------------------------------------------

  function Pow2(k: nat): nat {
    if k == 0 then 1 else 2 * Pow2(k - 1)
  }

  /** The integer part of the base-2 logarithm. */
  function Log2Floor(n: nat): nat
    requires n >= 1
  {
    if n == 1 then 0 else 1 + Log2Floor(n / 2)
  }

  lemma {:induction false} Log2FloorBounds(n: nat)
    requires n >= 1
    ensures Pow2(Log2Floor(n)) <= n < Pow2(Log2Floor(n) + 1)
  {
    if n > 1 {
      Log2FloorBounds(n / 2);
    }
  }

  /** `min_freq` (src/tokenize.rs:143): `max(2, floor(log2(n + 1)))` for `n` strings. */
  function MinFreq(n: nat): nat {
    var l := Log2Floor(n + 1);
    if l > 2 then l else 2
  }

  /** The threshold is at least 2 and otherwise the largest `k` with `2^k <= n + 1`. */
  lemma MinFreqBounds(n: nat)
    ensures MinFreq(n) >= 2
    ensures MinFreq(n) == 2 || Pow2(MinFreq(n)) <= n + 1
    ensures n + 1 < Pow2(MinFreq(n) + 1)
  {
    Log2FloorBounds(n + 1);
  }


  /** The per-character ids of every corpus string. */
  function CorpusIds(strToken: map<string, Token>, corpus: seq<string>): (r: seq<seq<Token>>)
    ensures |r| == |corpus|
  {
    seq(|corpus|, i requires 0 <= i < |corpus| => CharIds(strToken, corpus[i]))
  }

  /** The one-character strings of a corpus, string by string. */
  ghost function CorpusChars(corpus: seq<string>): set<string> {
    if corpus == [] then {} else CorpusChars(corpus[..|corpus| - 1]) + CharStrings(corpus[|corpus| - 1])
  }

  /** A one-character string is in `CorpusChars` exactly when some corpus string holds that character. */
  lemma {:induction false} CorpusCharsIff(corpus: seq<string>, x: string)
    ensures x in CorpusChars(corpus) <==>
              exists i, j :: 0 <= i < |corpus| && 0 <= j < |corpus[i]| && x == [corpus[i][j]]
  {
    if corpus != [] {
      var n := |corpus| - 1;
      var init := corpus[..n];
      CorpusCharsIff(init, x);
      CharStringsIff(corpus[n], x);
      if x in CorpusChars(corpus) {
        if x in CorpusChars(init) {
          var i, j :| 0 <= i < |init| && 0 <= j < |init[i]| && x == [init[i][j]];
          assert corpus[i] == init[i];
        } else {
          var j :| 0 <= j < |corpus[n]| && x == [corpus[n][j]];
        }
      }
      if exists i, j :: 0 <= i < |corpus| && 0 <= j < |corpus[i]| && x == [corpus[i][j]] {
        var i, j :| 0 <= i < |corpus| && 0 <= j < |corpus[i]| && x == [corpus[i][j]];
        if i < n {
          assert init[i] == corpus[i];
        } else {
          assert x == [corpus[n][j]];
        }
      }
    }
  }

  lemma CorpusCharsSnoc(corpus: seq<string>, n: nat)
    requires n < |corpus|
    ensures CorpusChars(corpus[..n + 1]) == CorpusChars(corpus[..n]) + CharStrings(corpus[n])
  {
    assert corpus[..n + 1][..n] == corpus[..n];
  }

  /** Interning corpus string `i` extends the keys by its characters. */
  lemma CorpusKeysStep(corpus: seq<string>, i: nat, k0: set<string>, st: map<string, Token>, st2: map<string, Token>)
    requires i < |corpus|
    requires KeysAre(st, k0 + CorpusChars(corpus[..i])) && KeysAre(st2, st.Keys + CharStrings(corpus[i]))
    ensures KeysAre(st2, k0 + CorpusChars(corpus[..i + 1]))
  {
    CorpusCharsSnoc(corpus, i);
    KeysThen(st, st2, k0 + CorpusChars(corpus[..i]), CharStrings(corpus[i]));
  }

  /** The spellings of the tokens that `merges` created, merge by merge. */
  ghost function MergedSpellings(tokenStr: map<Token, string>, merges: seq<(Pair, Token)>): set<string> {
    if merges == [] then {}
    else
      var m := merges[|merges| - 1].1;
      MergedSpellings(tokenStr, merges[..|merges| - 1]) + (if m in tokenStr then {tokenStr[m]} else {})
  }

  /** A string is in `MergedSpellings` exactly when it spells a token some merge created. */
  lemma {:induction false} MergedSpellingsIff(tokenStr: map<Token, string>, merges: seq<(Pair, Token)>, x: string)
    ensures x in MergedSpellings(tokenStr, merges) <==>
              exists k :: 0 <= k < |merges| && merges[k].1 in tokenStr && x == tokenStr[merges[k].1]
  {
    if merges != [] {
      var n := |merges| - 1;
      var init := merges[..n];
      MergedSpellingsIff(tokenStr, init, x);
      if exists k :: 0 <= k < |merges| && merges[k].1 in tokenStr && x == tokenStr[merges[k].1] {
        var k :| 0 <= k < |merges| && merges[k].1 in tokenStr && x == tokenStr[merges[k].1];
        if k < n {
          assert init[k] == merges[k];
        }
      }
      if x in MergedSpellings(tokenStr, init) {
        var k :| 0 <= k < n && init[k].1 in tokenStr && x == tokenStr[init[k].1];
        assert merges[k] == init[k];
      }
    }
  }

  /** Spellings already recorded do not change when the table gains a token. */
  lemma {:induction false} MergedSpellingsStable(before: map<Token, string>, after: map<Token, string>,
                                                 merges: seq<(Pair, Token)>)
    requires forall k :: 0 <= k < |merges| ==> merges[k].1 in before
    requires forall t :: t in before ==> t in after && after[t] == before[t]
    ensures MergedSpellings(after, merges) == MergedSpellings(before, merges)
  {
    if merges != [] {
      MergedSpellingsStable(before, after, merges[..|merges| - 1]);
    }
  }

  /** A merge creating a fresh token adds that token's spelling. */
  lemma MergedSpellingsSnoc(before: map<Token, string>, after: map<Token, string>, merges: seq<(Pair, Token)>,
                            p: Pair, m: Token)
    requires forall k :: 0 <= k < |merges| ==> merges[k].1 in before
    requires m !in before && m in after && after == before[m := after[m]]
    ensures MergedSpellings(after, merges + [(p, m)]) == MergedSpellings(before, merges) + {after[m]}
  {
    assert (merges + [(p, m)])[..|merges|] == merges;
    MergedSpellingsStable(before, after, merges);
  }

  /** A merge creating a fresh token adds its spelling to the table's keys. */
  lemma LearnedKeys(keys0: set<string>, st: map<string, Token>, strs: map<Token, string>,
                    st2: map<string, Token>, strs2: map<Token, string>, merges: seq<(Pair, Token)>, p: Pair, m: Token)
    requires KeysAre(st, keys0 + MergedSpellings(strs, merges))
    requires forall k :: 0 <= k < |merges| ==> merges[k].1 in strs
    requires m !in strs && m in strs2 && strs2 == strs[m := strs2[m]] && st2 == st[strs2[m] := m]
    ensures KeysAre(st2, keys0 + MergedSpellings(strs2, merges + [(p, m)]))
  {
    MergedSpellingsSnoc(strs, strs2, merges, p, m);
  }

  /**
   * The strings training interns: `<UNK>`, the two special characters, the
   * characters of the corpus and the spellings of the learned merges.
   */
  ghost function Vocabulary(corpus: seq<string>, tokenStr: map<Token, string>, merges: seq<(Pair, Token)>): set<string> {
    {Unknown, [' '], [Chars.Separator]} + CorpusChars(corpus) + MergedSpellings(tokenStr, merges)
  }

  /** Adding entries to the table leaves the ids of known characters alone. */
  lemma CharIdsStable(st: map<string, Token>, more: map<string, Token>, s: string)
    requires CharsKnown(st, s)
    requires forall x :: x in st ==> x in more && more[x] == st[x]
    ensures CharsKnown(more, s)
    ensures CharIds(more, s) == CharIds(st, s)
  {
  }

  /** A pair that occurs in a spelled sequence joins two spelled tokens. */
  lemma OccursKnown(strs: map<Token, string>, ts: seq<Token>, a: Token, b: Token)
    requires Known(strs, ts) && Occurs(ts, a, b)
    ensures a in strs && b in strs
  {
    var i :| 0 <= i < |ts| - 1 && ts[i] == a && ts[i + 1] == b;
  }

  /** The strings spell the first `|strings|` corpus entries, one known id per character, with current filters. */
  ghost predicate Interned(strToken: map<string, Token>, corpus: seq<string>, strings: seq<Tokens>, last: Token) {
    && |strings| <= |corpus|
    && forall j :: 0 <= j < |strings| ==>
         && CharsKnown(strToken, corpus[j])
         && strings[j].tokens == CharIds(strToken, corpus[j])
         && BloomCurrent(strings[j], last)
  }

  lemma InternedGrow(st: map<string, Token>, more: map<string, Token>, corpus: seq<string>, strings: seq<Tokens>, last: Token)
    requires Interned(st, corpus, strings, last)
    requires forall x :: x in st ==> x in more && more[x] == st[x]
    ensures Interned(more, corpus, strings, last)
  {
    forall j | 0 <= j < |strings|
      ensures CharsKnown(more, corpus[j]) && strings[j].tokens == CharIds(more, corpus[j])
    {
      CharIdsStable(st, more, corpus[j]);
    }
  }

  lemma InternedPush(st: map<string, Token>, corpus: seq<string>, strings: seq<Tokens>, t: Tokens, last: Token)
    requires Interned(st, corpus, strings, last) && |strings| < |corpus|
    requires CharsKnown(st, corpus[|strings|]) && t.tokens == CharIds(st, corpus[|strings|])
    requires BloomCurrent(t, last)
    ensures Interned(st, corpus, strings + [t], last)
  {
  }

  /** src/tokenize.rs:128-131: each corpus string as one token per character, creating ids. */
  method Intern(corpus: seq<string>, tm: TokenMap) returns (strings: seq<Tokens>)
    requires tm.Valid()
    modifies tm
    ensures tm.Valid()
    ensures tm.special == old(tm.special)
    ensures |strings| == |corpus|
    ensures Interned(tm.strToken, corpus, strings, tm.LastSpecial())
    ensures KeysAre(tm.strToken, old(tm.strToken).Keys + CorpusChars(corpus))
  {
    var last := tm.LastSpecial();
    strings := [];
    assert corpus[..0] == [];
    for i := 0 to |corpus|
      invariant tm.Valid()
      invariant tm.special == old(tm.special) && tm.LastSpecial() == last
      invariant |strings| == i
      invariant InternedFrom(tm.strToken, corpus, strings, last, old(tm.strToken).Keys)
    {
      ghost var st := tm.strToken;
      var t := InternNext(corpus, strings, tm, last);
      InternedFromStep(st, tm.strToken, corpus, strings, t, last, old(tm.strToken).Keys);
      strings := strings + [t];
    }
    assert corpus[..|corpus|] == corpus;
  }

  /** `Intern` after `|strings|` corpus strings, on a table whose keys were `k0`. */
  ghost predicate InternedFrom(st: map<string, Token>, corpus: seq<string>, strings: seq<Tokens>, last: Token,
                               k0: set<string>)
  {
    Interned(st, corpus, strings, last) && KeysAre(st, k0 + CorpusChars(corpus[..|strings|]))
  }

  lemma InternedFromStep(st: map<string, Token>, st2: map<string, Token>, corpus: seq<string>,
                         strings: seq<Tokens>, t: Tokens, last: Token, k0: set<string>)
    requires |strings| < |corpus| && InternedFrom(st, corpus, strings, last, k0)
    requires Interned(st2, corpus, strings + [t], last)
    requires KeysAre(st2, st.Keys + CharStrings(corpus[|strings|]))
    ensures InternedFrom(st2, corpus, strings + [t], last, k0)
  {
    CorpusKeysStep(corpus, |strings|, k0, st, st2);
  }

  /** One step of `Intern`: the next corpus string, interned. */
  method InternNext(corpus: seq<string>, strings: seq<Tokens>, tm: TokenMap, last: Token) returns (t: Tokens)
    requires tm.Valid() && |strings| < |corpus| && last == tm.LastSpecial()
    requires Interned(tm.strToken, corpus, strings, last)
    modifies tm
    ensures tm.Valid() && tm.special == old(tm.special) && tm.LastSpecial() == last
    ensures Interned(tm.strToken, corpus, strings + [t], last)
    ensures KeysAre(tm.strToken, old(tm.strToken).Keys + CharStrings(corpus[|strings|]))
  {
    ghost var before := tm.strToken;
    t := FromStrAndCreate(corpus[|strings|], tm);
    InternedGrow(before, tm.strToken, corpus, strings, last);
    InternedPush(tm.strToken, corpus, strings, t, last);
  }

  /** src/tokenize.rs:155-162: one count update per yielded pair of every string. */
  method CountPairs(counts: PairCounts, strings: seq<Tokens>, last: Token)
    requires counts.Valid() && counts.NoZeros()
    requires forall q :: counts.Total(q) == 0
    modifies counts
    ensures counts.Valid() && counts.NoZeros()
    ensures forall q :: counts.Total(q) == Occurrences(Lists(strings), last, q)
  {
    ghost var counted: multiset<Pair> := multiset{};
    for i := 0 to |strings|
      invariant counts.Valid() && counts.NoZeros()
      invariant counted == Bag(strings[..i], last)
      invariant forall q :: counts.Total(q) == counted[q]
    {
      var ps := Pairs(strings[i].tokens, last);
      CountOne(counts, ps);
      BagSnoc(strings, i, last);
      counted := counted + multiset(ps);
    }
    assert strings[..|strings|] == strings;
    BagIsPairBag(strings, last);
  }

  /** The inner loop of the initial count: one `update_pair(p, 1)` per yielded pair. */
  method CountOne(counts: PairCounts, ps: seq<Pair>)
    requires counts.Valid() && counts.NoZeros()
    modifies counts
    ensures counts.Valid() && counts.NoZeros()
    ensures forall q :: counts.Total(q) == old(counts.Total(q)) + multiset(ps)[q]
  {
    for j := 0 to |ps|
      invariant counts.Valid() && counts.NoZeros()
      invariant forall q :: counts.Total(q) == old(counts.Total(q)) + multiset(ps[..j])[q]
    {
      assert ps[..j + 1] == ps[..j] + [ps[j]];
      counts.UpdatePair(ps[j], 1);
    }
    assert ps[..|ps|] == ps;
  }

  /**
   * One string of a parallel task (src/tokenize.rs:205-221): skipped when
   * its filter does not report the pair, otherwise rewritten, and when the
   * rewrite changed it, its old pairs counted down and its new pairs up.
   */
  method RewriteOne(tm: TokenMap, s: Tokens, p: Pair, merged: Token, mask: Bits, delta: Counts)
    returns (s2: Tokens, delta2: Counts)
    requires tm.Valid()
    requires p.a > tm.LastSpecial() && p.b > tm.LastSpecial()
    requires mask == Mask(PairHash(p))
    requires BloomCurrent(s, tm.LastSpecial())
    ensures s2.tokens == Replace(s.tokens, p, merged)
    ensures BloomCurrent(s2, tm.LastSpecial())
    ensures NoZero(delta) ==> NoZero(delta2)
    ensures forall q :: Count(delta2, q) == Count(delta, q)
              - multiset(Pairs(s.tokens, tm.LastSpecial()))[q] + multiset(Pairs(s2.tokens, tm.LastSpecial()))[q]
  {
    var last := tm.LastSpecial();
    s2, delta2 := s, delta;
    if !Contains(s, mask) {
      SkipIsSound(s, last, p, merged);
      return;
    }
    var tmp, changed := FromReplace(tm, s, p, merged);
    if changed {
      delta2 := UpdateAll(delta2, Pairs(s.tokens, last), -1);
      delta2 := UpdateAll(delta2, Pairs(tmp.tokens, last), 1);
      s2 := tmp;
    } else {
      ReplaceAbsent(s.tokens, p, merged);
    }
  }

  /** A chunk's first `i` strings processed: `out` rewritten from them, `delta` the change of their pair counts. */
  ghost predicate ChunkAt(out: seq<Tokens>, chunk: seq<Tokens>, i: nat, delta: Counts, p: Pair, merged: Token, last: Token) {
    && i <= |chunk| && |out| == i
    && (forall j :: 0 <= j < i ==> out[j].tokens == Replace(chunk[j].tokens, p, merged))
    && (forall j :: 0 <= j < i ==> BloomCurrent(out[j], last))
    && NoZero(delta)
    && (forall q: Pair :: Count(delta, q) == Bag(out, last)[q] as int - Bag(chunk[..i], last)[q] as int)
  }

  /** Processing one more string of the chunk keeps `ChunkAt`. */
  lemma ChunkStep(out: seq<Tokens>, chunk: seq<Tokens>, i: nat, delta: Counts, s2: Tokens, delta2: Counts,
                  p: Pair, merged: Token, last: Token)
    requires ChunkAt(out, chunk, i, delta, p, merged, last) && i < |chunk|
    requires s2.tokens == Replace(chunk[i].tokens, p, merged) && BloomCurrent(s2, last)
    requires NoZero(delta2)
    requires forall q :: Count(delta2, q) == Count(delta, q)
               - multiset(Pairs(chunk[i].tokens, last))[q] + multiset(Pairs(s2.tokens, last))[q]
    ensures ChunkAt(out + [s2], chunk, i + 1, delta2, p, merged, last)
  {
    ChunkLists(out, chunk, i, s2, p, merged, last);
    ChunkCounts(out, chunk, i, delta, s2, delta2, last);
  }

  /** The list part of `ChunkStep`: the rewritten string joins the output. */
  lemma ChunkLists(out: seq<Tokens>, chunk: seq<Tokens>, i: nat, s2: Tokens, p: Pair, merged: Token, last: Token)
    requires |out| == i < |chunk|
    requires forall j :: 0 <= j < i ==> out[j].tokens == Replace(chunk[j].tokens, p, merged)
    requires forall j :: 0 <= j < i ==> BloomCurrent(out[j], last)
    requires s2.tokens == Replace(chunk[i].tokens, p, merged) && BloomCurrent(s2, last)
    ensures forall j :: 0 <= j < i + 1 ==> (out + [s2])[j].tokens == Replace(chunk[j].tokens, p, merged)
    ensures forall j :: 0 <= j < i + 1 ==> BloomCurrent((out + [s2])[j], last)
  {
    var out2 := out + [s2];
    assert forall j :: 0 <= j < i ==> out2[j] == out[j];
  }

  /** The count part of `ChunkStep`: the delta follows the two bags. */
  lemma ChunkCounts(out: seq<Tokens>, chunk: seq<Tokens>, i: nat, delta: Counts, s2: Tokens, delta2: Counts,
                    last: Token)
    requires i < |chunk|
    requires forall q: Pair :: Count(delta, q) == Bag(out, last)[q] as int - Bag(chunk[..i], last)[q] as int
    requires forall q :: Count(delta2, q) == Count(delta, q)
               - multiset(Pairs(chunk[i].tokens, last))[q] + multiset(Pairs(s2.tokens, last))[q]
    ensures forall q: Pair :: Count(delta2, q) == Bag(out + [s2], last)[q] as int - Bag(chunk[..i + 1], last)[q] as int
  {
    BagPush(out, s2, last);
    BagSnoc(chunk, i, last);
    forall q: Pair
      ensures Count(delta2, q) == Bag(out + [s2], last)[q] as int - Bag(chunk[..i + 1], last)[q] as int
    {
      assert Count(delta, q) == Bag(out, last)[q] as int - Bag(chunk[..i], last)[q] as int;
    }
  }

  /**
   * The body of one parallel task (src/tokenize.rs:198-224): each string
   * of its chunk in turn, collecting the count changes in a delta map.
   */
  method ProcessChunk(tm: TokenMap, chunk: seq<Tokens>, p: Pair, merged: Token, mask: Bits)
    returns (out: seq<Tokens>, delta: Counts)
    requires tm.Valid()
    requires p.a > tm.LastSpecial() && p.b > tm.LastSpecial()
    requires mask == Mask(PairHash(p))
    requires forall i :: 0 <= i < |chunk| ==> BloomCurrent(chunk[i], tm.LastSpecial())
    ensures |out| == |chunk|
    ensures forall i :: 0 <= i < |chunk| ==> out[i].tokens == Replace(chunk[i].tokens, p, merged)
    ensures forall i :: 0 <= i < |chunk| ==> BloomCurrent(out[i], tm.LastSpecial())
    ensures NoZero(delta)
    ensures forall q: Pair :: Count(delta, q)
              == Bag(out, tm.LastSpecial())[q] as int - Bag(chunk, tm.LastSpecial())[q] as int
  {
    var last := tm.LastSpecial();
    out := [];
    delta := map[];
    for i := 0 to |chunk|
      invariant ChunkAt(out, chunk, i, delta, p, merged, last)
    {
      var s2, delta2 := RewriteOne(tm, chunk[i], p, merged, mask, delta);
      ChunkStep(out, chunk, i, delta, s2, delta2, p, merged, last);
      out, delta := out + [s2], delta2;
    }
    assert chunk[..|chunk|] == chunk;
  }

  /** Rewritten so far: `strs[..start]` merged, the rest untouched, every filter current. */
  ghost predicate RoundAt(out: seq<Tokens>, strs: seq<Tokens>, start: nat, p: Pair, merged: Token, last: Token) {
    && start <= |strs| && |out| == |strs|
    && (forall j :: 0 <= j < start ==> out[j].tokens == Replace(strs[j].tokens, p, merged))
    && (forall j :: start <= j < |strs| ==> out[j] == strs[j])
    && (forall j :: 0 <= j < |strs| ==> BloomCurrent(out[j], last))
  }

  /**
   * One parallel task of a round (src/tokenize.rs:198-224): the chunk
   * `start .. end` is rewritten in place and its delta applied to the counts.
   */
  method RoundChunk(tm: TokenMap, counts: PairCounts, strs: seq<Tokens>, out: seq<Tokens>, start: nat, end: nat,
                    p: Pair, merged: Token, mask: Bits)
    returns (out2: seq<Tokens>)
    requires tm.Valid() && counts.Valid() && counts.NoZeros()
    requires start <= end <= |strs|
    requires p.a > tm.LastSpecial() && p.b > tm.LastSpecial()
    requires mask == Mask(PairHash(p))
    requires RoundAt(out, strs, start, p, merged, tm.LastSpecial())
    requires forall q: Pair :: counts.Total(q) == Bag(out, tm.LastSpecial())[q] as int
    modifies counts
    ensures counts.Valid() && counts.NoZeros()
    ensures RoundAt(out2, strs, end, p, merged, tm.LastSpecial())
    ensures forall q: Pair :: counts.Total(q) == Bag(out2, tm.LastSpecial())[q] as int
  {
    var last := tm.LastSpecial();
    var chunk := out[start..end];
    var done, delta := ProcessChunk(tm, chunk, p, merged, mask);
    counts.Apply(delta);
    SpliceBag(out, start, end, done, last);
    out2 := out[..start] + done + out[end..];
    forall q: Pair
      ensures counts.Total(q) == Bag(out2, last)[q] as int
    {
      assert (Bag(out2, last) + Bag(chunk, last))[q] == (Bag(out, last) + Bag(done, last))[q];
    }
    SpliceIndex(out, start, end, done);
    forall j | start <= j < end
      ensures out2[j].tokens == Replace(strs[j].tokens, p, merged)
    {
      assert chunk[j - start] == strs[j];
    }
  }

  /**
   * The chunk loop of a merge round (src/tokenize.rs:197-225): the strings are cut into
   * chunks of `chunkSize`; each chunk is processed in place and its delta
   * applied to the shared counts.
   */
  method RunChunks(tm: TokenMap, counts: PairCounts, strs: seq<Tokens>, p: Pair, merged: Token, mask: Bits, chunkSize: nat)
    returns (out: seq<Tokens>)
    requires tm.Valid() && counts.Valid() && counts.NoZeros()
    requires chunkSize > 0
    requires p.a > tm.LastSpecial() && p.b > tm.LastSpecial()
    requires mask == Mask(PairHash(p))
    requires forall i :: 0 <= i < |strs| ==> BloomCurrent(strs[i], tm.LastSpecial())
    requires forall q :: counts.Total(q) == Occurrences(Lists(strs), tm.LastSpecial(), q)
    modifies counts
    ensures counts.Valid() && counts.NoZeros()
    ensures Lists(out) == RoundOf(Lists(strs), p, merged)
    ensures forall i :: 0 <= i < |out| ==> BloomCurrent(out[i], tm.LastSpecial())
    ensures forall q :: counts.Total(q) == Occurrences(Lists(out), tm.LastSpecial(), q)
  {
    var last := tm.LastSpecial();
    BagIsPairBag(strs, last);
    out := strs;
    var start := 0;
    while start < |strs|
      invariant start <= |strs|
      invariant RoundAt(out, strs, start, p, merged, last)
      invariant counts.Valid() && counts.NoZeros()
      invariant forall q: Pair :: counts.Total(q) == Bag(out, last)[q] as int
      decreases |strs| - start
    {
      var end := if start + chunkSize < |strs| then start + chunkSize else |strs|;
      out := RoundChunk(tm, counts, strs, out, start, end, p, merged, mask);
      start := end;
    }
    assert Lists(out) == RoundOf(Lists(strs), p, merged);
    BagIsPairBag(out, last);
  }

  /** Every sequence of the corpus is spelled with known ids. */
  ghost predicate AllKnown(strs: map<Token, string>, tss: seq<seq<Token>>) {
    forall i :: 0 <= i < |tss| ==> Known(strs, tss[i])
  }

  /** A sound new merge keeps the corpus spelled with known ids. */
  lemma RoundKnown(strs: map<Token, string>, more: map<Token, string>, tss: seq<seq<Token>>, p: Pair, m: Token)
    requires AllKnown(strs, tss)
    requires forall t :: t in strs ==> t in more && more[t] == strs[t]
    requires m in more && p.a in more && p.b in more && more[m] == more[p.a] + more[p.b]
    ensures AllKnown(more, RoundOf(tss, p, m))
  {
    forall i | 0 <= i < |tss|
      ensures Known(more, RoundOf(tss, p, m)[i])
    {
      DecodeGrow(strs, more, tss[i]);
      ReplaceDecode(more, tss[i], p, m);
    }
  }

  lemma MergesSoundGrow(strs: map<Token, string>, more: map<Token, string>, merges: seq<(Pair, Token)>,
                        last: Token, p: Pair, m: Token)
    requires MergesSound(strs, merges, last)
    requires forall t :: t in strs ==> t in more && more[t] == strs[t]
    requires p.a > last && p.b > last && m > last
    requires m in more && p.a in more && p.b in more && more[m] == more[p.a] + more[p.b]
    ensures MergesSound(more, merges + [(p, m)], last)
  {
  }

  /**
   * The corpus side of the training loop: the strings are the initial ids
   * after the merges so far, which were each the top pair in turn; every
   * id is spelled and every filter current.
   */
  ghost predicate CorpusAt(strings: seq<Tokens>, tss0: seq<seq<Token>>, merges: seq<(Pair, Token)>, minFreq: nat,
                           tokenStr: map<Token, string>)
  {
    && Lists(strings) == Replay(tss0, merges)
    && Learned(tss0, merges, 2, minFreq)
    && MergesSound(tokenStr, merges, 2)
    && AllKnown(tokenStr, Lists(strings))
    && (forall i :: 0 <= i < |strings| ==> BloomCurrent(strings[i], 2))
  }

  /** What the training loop keeps true from one round to the next. */
  ghost predicate Training(tm: TokenMap, counts: PairCounts, strings: seq<Tokens>, tss0: seq<seq<Token>>,
                           merges: seq<(Pair, Token)>, minFreq: nat)
    reads tm, counts
  {
    && tm.Valid() && tm.special == [0, 1, 2]
    && counts.Valid() && counts.NoZeros()
    && CorpusAt(strings, tss0, merges, minFreq, tm.tokenStr)
    && (forall q :: counts.Total(q) == Occurrences(Lists(strings), 2, q))
  }

  /** Merging the top pair into a fresh token that spells it moves the corpus one round on. */
  lemma CorpusStep(strings: seq<Tokens>, strings2: seq<Tokens>, tss0: seq<seq<Token>>, merges: seq<(Pair, Token)>,
                   minFreq: nat, before: map<Token, string>, after: map<Token, string>, p: Pair, m: Token)
    requires CorpusAt(strings, tss0, merges, minFreq, before)
    requires IsTop(Lists(strings), 2, p) && Occurrences(Lists(strings), 2, p) >= minFreq
    requires forall t :: t in before ==> t in after && after[t] == before[t]
    requires p.a > 2 && p.b > 2 && m > 2
    requires m in after && p.a in after && p.b in after && after[m] == after[p.a] + after[p.b]
    requires Lists(strings2) == RoundOf(Lists(strings), p, m)
    requires forall i :: 0 <= i < |strings2| ==> BloomCurrent(strings2[i], 2)
    ensures CorpusAt(strings2, tss0, merges + [(p, m)], minFreq, after)
    ensures TotalLength(Lists(strings2)) < TotalLength(Lists(strings))
  {
    RoundShrinks(Lists(strings), 2, p, m);
    RoundKnown(before, after, Lists(strings), p, m);
    MergesSoundGrow(before, after, merges, 2, p, m);
    LearnedExtend(tss0, merges, 2, minFreq, p, m);
  }

  /** The counts' greatest entry, as `Max` reports it, is the corpus's top pair. */
  lemma TopFromCounts(counts: PairCounts, tss: seq<seq<Token>>, c: int, p: Pair)
    requires counts.Valid() && counts.NoZeros()
    requires forall q :: counts.Total(q) == Occurrences(tss, 2, q)
    requires exists k :: 0 <= k < |counts.shards| && p in counts.shards[k] && counts.shards[k][p] == c
    requires forall k, q :: 0 <= k < |counts.shards| && q in counts.shards[k] ==> Below(counts.shards[k][q], q, c, p)
    requires c > 0
    ensures IsTop(tss, 2, p) && Occurrences(tss, 2, p) == c
  {
    MaxIsGreatestTotal(counts, c, p);
  }

  /** Below the threshold at the top, or nothing counted at all: training has stopped. */
  lemma StoppedFromCounts(counts: PairCounts, tss: seq<seq<Token>>, minFreq: int, top: Option<(int, Pair)>)
    requires counts.Valid() && counts.NoZeros()
    requires forall q :: counts.Total(q) == Occurrences(tss, 2, q)
    requires top.None? ==> forall k :: 0 <= k < |counts.shards| ==> counts.shards[k] == map[]
    requires top.Some? ==>
               && (exists k :: 0 <= k < |counts.shards| && top.value.1 in counts.shards[k] && counts.shards[k][top.value.1] == top.value.0)
               && (forall k, q :: 0 <= k < |counts.shards| && q in counts.shards[k] ==> Below(counts.shards[k][q], q, top.value.0, top.value.1))
               && top.value.0 < minFreq
    requires minFreq > 0
    ensures Stopped(tss, 2, minFreq)
  {
    if top.Some? {
      MaxIsGreatestTotal(counts, top.value.0, top.value.1);
    }
  }

  /**
   * The round after a new token `m` for `pair` (src/tokenize.rs:188-225):
   * the pair's filter mask, then every chunk rewritten and counted.
   */
  method MergeRound(tm: TokenMap, counts: PairCounts, strs: seq<Tokens>, merges: seq<(Pair, Token)>, minFreq: nat,
                    chunkSize: nat, ghost tss0: seq<seq<Token>>, pair: Pair, m: Token, ghost before: map<Token, string>)
    returns (strs2: seq<Tokens>)
    requires chunkSize > 0
    requires tm.Valid() && tm.special == [0, 1, 2]
    requires counts.Valid() && counts.NoZeros()
    requires forall q :: counts.Total(q) == Occurrences(Lists(strs), 2, q)
    requires CorpusAt(strs, tss0, merges, minFreq, before)
    requires IsTop(Lists(strs), 2, pair) && Occurrences(Lists(strs), 2, pair) >= minFreq
    requires forall t :: t in before ==> t in tm.tokenStr && tm.tokenStr[t] == before[t]
    requires pair.a > 2 && pair.b > 2 && m > 2
    requires m in tm.tokenStr && pair.a in tm.tokenStr && pair.b in tm.tokenStr
    requires tm.tokenStr[m] == tm.tokenStr[pair.a] + tm.tokenStr[pair.b]
    modifies counts
    ensures Training(tm, counts, strs2, tss0, merges + [(pair, m)], minFreq)
    ensures TotalLength(Lists(strs2)) < TotalLength(Lists(strs))
  {
    var bloom := new Bloom();
    bloom.Set(PairHash(pair));
    strs2 := RunChunks(tm, counts, strs, pair, m, bloom.ToMask(), chunkSize);
    CorpusStep(strs, strs2, tss0, merges, minFreq, before, tm.tokenStr, pair, m);
  }

  /**
   * After the merges of `done`, the top pair `p` still reaches the threshold,
   * but its two spellings joined are already a token: `create_token` panics.
   */
  ghost predicate StuckAt(tss: seq<seq<Token>>, done: seq<(Pair, Token)>, p: Pair, minFreq: int,
                          strToken: map<string, Token>, tokenStr: map<Token, string>)
  {
    && IsTop(Replay(tss, done), 2, p) && Occurrences(Replay(tss, done), 2, p) >= minFreq
    && p.a in tokenStr && p.b in tokenStr && tokenStr[p.a] + tokenStr[p.b] in strToken
  }

  /**
   * A run of training over `corpus` that a clash of spellings stops: the
   * corpus interned by `strToken`, the merges of `done` learned by the rules
   * and spelled by `tokenStr`, and then the top pair `p` clashing.
   */
  ghost predicate Collision(corpus: seq<string>, strToken: map<string, Token>, tokenStr: map<Token, string>,
                            done: seq<(Pair, Token)>, p: Pair, minFreq: int)
  {
    && (forall i :: 0 <= i < |corpus| ==> CharsKnown(strToken, corpus[i]))
    && Learned(CorpusIds(strToken, corpus), done, 2, minFreq)
    && MergesSound(tokenStr, done, 2)
    && StuckAt(CorpusIds(strToken, corpus), done, p, minFreq, strToken, tokenStr)
  }

  /**
   * One iteration of the merge loop once the top pair is chosen
   * (src/tokenize.rs:184-225): a token for the pair, the pair's filter
   * mask, and a round over the corpus. `None` stands for the panic of
   * `create_token`.
   */
  method MergeTop(tm: TokenMap, counts: PairCounts, strs: seq<Tokens>, merges: seq<(Pair, Token)>, minFreq: nat,
                  chunkSize: nat, ghost tss0: seq<seq<Token>>, pair: Pair)
    returns (strs2: seq<Tokens>, merged: Option<Token>)
    requires chunkSize > 0
    requires Training(tm, counts, strs, tss0, merges, minFreq)
    requires IsTop(Lists(strs), 2, pair) && Occurrences(Lists(strs), 2, pair) >= minFreq
    modifies tm, counts
    ensures tm.Valid() && tm.special == [0, 1, 2]
    ensures forall x :: x in old(tm.strToken) ==> x in tm.strToken && tm.strToken[x] == old(tm.strToken)[x]
    ensures merged.Some? ==> && Training(tm, counts, strs2, tss0, merges + [(pair, merged.value)], minFreq)
                             && TotalLength(Lists(strs2)) < TotalLength(Lists(strs))
                             && merged.value !in old(tm.tokenStr) && merged.value in tm.tokenStr
                             && tm.tokenStr == old(tm.tokenStr)[merged.value := tm.tokenStr[merged.value]]
                             && tm.strToken == old(tm.strToken)[tm.tokenStr[merged.value] := merged.value]
    ensures merged.None? ==> && tm.tokenStr == old(tm.tokenStr) && tm.strToken == old(tm.strToken)
                             && pair.a in tm.tokenStr && pair.b in tm.tokenStr
                             && tm.tokenStr[pair.a] + tm.tokenStr[pair.b] in tm.strToken
  {
    ghost var i := OccurrencesWitness(Lists(strs), 2, pair);
    PairsIff(strs[i].tokens, 2, pair);
    OccursKnown(tm.tokenStr, strs[i].tokens, pair.a, pair.b);
    ghost var before := tm.tokenStr;
    merged := tm.Merge(pair);
    strs2 := strs;
    if merged.None? {
      return;
    }
    strs2 := MergeRound(tm, counts, strs, merges, minFreq, chunkSize, tss0, pair, merged.value, before);
  }

  /**
   * The merge loop of `PairTokenizer::new` (src/tokenize.rs:167-226): the
   * top pair is merged while its count reaches `minFreq`. `None` stands for
   * the panic of `create_token` when the merged spelling already exists.
   */
  method Learn(tm: TokenMap, counts: PairCounts, strings: seq<Tokens>, minFreq: nat, chunkSize: nat,
               ghost tss0: seq<seq<Token>>)
    returns (r: Option<seq<(Pair, Token)>>, done: seq<(Pair, Token)>, stuck: Pair)
    requires minFreq >= 2 && chunkSize > 0
    requires Training(tm, counts, strings, tss0, [], minFreq)
    modifies tm, counts
    ensures tm.Valid() && tm.special == [0, 1, 2]
    ensures forall x :: x in old(tm.strToken) ==> x in tm.strToken && tm.strToken[x] == old(tm.strToken)[x]
    ensures KeysAre(tm.strToken, old(tm.strToken).Keys + MergedSpellings(tm.tokenStr, done))
    ensures r.Some? ==> r.value == done
    ensures r.Some? ==> && MergesSound(tm.tokenStr, r.value, 2)
                        && Learned(tss0, r.value, 2, minFreq)
                        && Stopped(Replay(tss0, r.value), 2, minFreq)
    ensures r.None? ==> && MergesSound(tm.tokenStr, done, 2)
                        && Learned(tss0, done, 2, minFreq)
                        && StuckAt(tss0, done, stuck, minFreq, tm.strToken, tm.tokenStr)
  {
    var merges: seq<(Pair, Token)> := [];
    var strs := strings;
    done, stuck := [], Pair(0, 0);
    while true
      invariant Training(tm, counts, strs, tss0, merges, minFreq)
      invariant forall x :: x in old(tm.strToken) ==> x in tm.strToken && tm.strToken[x] == old(tm.strToken)[x]
      invariant KeysAre(tm.strToken, old(tm.strToken).Keys + MergedSpellings(tm.tokenStr, merges))
      decreases TotalLength(Lists(strs))
    {
      var top := counts.Max();
      if top.None? || top.value.0 < minFreq {
        StoppedFromCounts(counts, Lists(strs), minFreq, top);
        return Some(merges), merges, stuck;
      }
      var (c, pair) := top.value;
      TopFromCounts(counts, Lists(strs), c, pair);
      ghost var st, strs0 := tm.strToken, tm.tokenStr;
      var next, merged := MergeTop(tm, counts, strs, merges, minFreq, chunkSize, tss0, pair);
      if merged.None? {
        return None, merges, pair;
      }
      LearnedKeys(old(tm.strToken).Keys, st, strs0, tm.strToken, tm.tokenStr, merges, pair, merged.value);
      strs := next;
      merges := merges + [(pair, merged.value)];
    }
  }

  /** The interned corpus is the per-character ids of the text, all spelled. */
  lemma InternedIds(strToken: map<string, Token>, tokenStr: map<Token, string>, corpus: seq<string>, strings: seq<Tokens>)
    requires Interned(strToken, corpus, strings, 2) && |strings| == |corpus|
    requires forall x :: x in strToken ==> strToken[x] in tokenStr && tokenStr[strToken[x]] == x
    ensures Lists(strings) == CorpusIds(strToken, corpus)
    ensures AllKnown(tokenStr, Lists(strings))
    ensures forall i :: 0 <= i < |strings| ==> BloomCurrent(strings[i], 2)
  {
    forall i | 0 <= i < |strings|
      ensures Known(tokenStr, Lists(strings)[i])
    {
      CharIdsDecode(strToken, tokenStr, corpus[i]);
    }
  }

  /** Ids of known characters survive any growth of the table. */
  lemma CorpusIdsStable(st: map<string, Token>, more: map<string, Token>, corpus: seq<string>)
    requires forall i :: 0 <= i < |corpus| ==> CharsKnown(st, corpus[i])
    requires forall x :: x in st ==> x in more && more[x] == st[x]
    ensures forall i :: 0 <= i < |corpus| ==> CharsKnown(more, corpus[i])
    ensures CorpusIds(more, corpus) == CorpusIds(st, corpus)
  {
    forall i | 0 <= i < |corpus|
      ensures CharsKnown(more, corpus[i]) && CharIds(more, corpus[i]) == CharIds(st, corpus[i])
    {
      CharIdsStable(st, more, corpus[i]);
    }
  }

  /**
   * `PairTokenizer::new` (src/tokenize.rs:116-229): the space and the path
   * separator are the special characters; an empty corpus yields no merges;
   * otherwise the pairs are counted and merged down to the threshold
   * `MinFreq`. `Failure` stands for the panic of `create_token` when a
   * merged spelling already exists. Besides the result come the token table
   * training builds, the merges it learns and, on `Failure`, the pair it
   * stops at.
   */
  method Train(corpus: seq<string>, cpus: nat)
    returns (r: Result<PairTokenizer, string>, tm: TokenMap, done: seq<(Pair, Token)>, stuck: Pair)
    requires cpus > 0
    ensures tm.Valid() && tm.special == [0, 1, 2]
    ensures KeysAre(tm.strToken, Vocabulary(corpus, tm.tokenStr, done))
    ensures r.Success? ==> r.value.tokenMap == tm && r.value.merges == done
    ensures r.Success? ==> r.value.Valid() && r.value.tokenMap.special == [0, 1, 2]
    ensures r.Success? ==> forall i :: 0 <= i < |corpus| ==> CharsKnown(r.value.tokenMap.strToken, corpus[i])
    ensures corpus == [] ==> r.Success? && r.value.merges == []
    ensures r.Success? && corpus != [] ==>
              var tss := CorpusIds(r.value.tokenMap.strToken, corpus);
              && Learned(tss, r.value.merges, 2, MinFreq(|corpus|))
              && Stopped(Replay(tss, r.value.merges), 2, MinFreq(|corpus|))
    ensures r.Failure? ==> corpus != [] && Collision(corpus, tm.strToken, tm.tokenStr, done, stuck, MinFreq(|corpus|))
  {
    var strings;
    tm, strings := Setup(corpus);
    done, stuck := [], Pair(0, 0);
    if |strings| == 0 {
      var pt := new PairTokenizer(tm, []);
      return Success(pt), tm, done, stuck;
    }
    var minFreq := MinFreq(|strings|);
    MinFreqBounds(|strings|);
    var counts := new PairCounts(cpus);
    CountPairs(counts, strings, 2);
    var chunkSize := if |strings| / cpus > 100 then |strings| / cpus else 100;
    ghost var st0 := tm.strToken;
    ghost var tss0 := Lists(strings);
    InternedIds(tm.strToken, tm.tokenStr, corpus, strings);
    assert Replay(tss0, []) == tss0;
    var merges;
    merges, done, stuck := Learn(tm, counts, strings, minFreq, chunkSize, tss0);
    KeysThen(st0, tm.strToken, {Unknown, [' '], [Chars.Separator]} + CorpusChars(corpus),
             MergedSpellings(tm.tokenStr, done));
    CorpusIdsStable(st0, tm.strToken, corpus);
    if merges.None? {
      assert Collision(corpus, tm.strToken, tm.tokenStr, done, stuck, minFreq);
      return Failure("create_token: the merged string is already a token"), tm, done, stuck;
    }
    var pt := new PairTokenizer(tm, merges.value);
    r := Success(pt);
  }

  /**
   * src/tokenize.rs:120-131: the token table with the space and the path
   * separator as special characters, and the corpus interned into it.
   */
  method Setup(corpus: seq<string>) returns (tm: TokenMap, strings: seq<Tokens>)
    ensures fresh(tm) && tm.Valid() && tm.special == [0, 1, 2]
    ensures |strings| == |corpus| && Interned(tm.strToken, corpus, strings, 2)
    ensures KeysAre(tm.strToken, {Unknown, [' '], [Chars.Separator]} + CorpusChars(corpus))
  {
    tm := new TokenMap([' ', Chars.Separator]);
    assert Distinct([' ', Chars.Separator]);
    assert tm.special == [0, 1, 2];
    SpecialStrings();
    ghost var specials := tm.strToken;
    strings := Intern(corpus, tm);
    KeysThen(specials, tm.strToken, {Unknown, [' '], [Chars.Separator]}, CorpusChars(corpus));
  }

  /** The one-character strings of the special characters ` ` and `/`. */
  lemma SpecialStrings()
    ensures CharStrings([' ', Chars.Separator]) == {[' '], [Chars.Separator]}
  {
    var sc := [' ', Chars.Separator];
    assert sc[..1] == [' '] && sc[..1][..0] == [];
    assert CharStrings(sc[..1]) == {[' ']};
  }
}
