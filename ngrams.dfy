/**
 * N-gram extraction and frequency filtering (src/ngrams.rs).
 *
 * An n-gram is the 64-bit hash of a window of consecutive tokens. `Ngrams`
 * is a class over the list the source keeps in a `Vec`; `windows` refills
 * it in place. `count_and_filter_from_paths` counts, per path and after
 * per-path deduplication, how many paths contain each n-gram, in saturating
 * 8-bit counters, chunk by chunk, and keeps the n-grams seen in at least
 * two paths.
 */
module Ngrams {
  import opened Wrappers
  import opened Tokens
  import opened Tokenize

  /** `Ngram(u64)`. */
  type Ngram = h: nat | h < 0x1_0000_0000_0000_0000

  /**
   * Stand-in for `Ngram::new`, which hashes the window with
   * `DefaultHasher`: a fixed deterministic function. Nothing below assumes
   * that two different windows have different n-grams.
   */
  function NgramOf(w: seq<Token>): Ngram {
    if w == [] then 7 else (NgramOf(w[..|w| - 1]) * 31 + w[|w| - 1]) % 0x1_0000_0000_0000_0000
  }

  // ---------------------------------------------------------------------
  // The windows, in generation order
  // ---------------------------------------------------------------------

  /** `slice::windows(n)`: every run of `n` consecutive tokens, left to right; none when `n` exceeds the length. */
  function WindowsOfSize(ts: seq<Token>, n: nat): (r: seq<seq<Token>>)
    requires n >= 1
    ensures |r| == if n <= |ts| then |ts| - n + 1 else 0
  {
    if n <= |ts| then seq(|ts| - n + 1, i requires 0 <= i <= |ts| - n => ts[i..i + n]) else []
  }

  /** The windows of lengths `1 ..= w`, shortest first, as the two loops of src/ngrams.rs:32-33 produce them. */
  function Generated(ts: seq<Token>, w: nat): seq<seq<Token>> {
    if w == 0 then [] else Generated(ts, w - 1) + WindowsOfSize(ts, w)
  }

  /** The filter of src/ngrams.rs:35-39: everything passes when there is no allowed set. */
  predicate Passes(allowed: Option<set<Ngram>>, g: seq<Token>) {
    allowed.None? || NgramOf(g) in allowed.value
  }

  /** The windows that pass the filter, in order. */
  function Kept(gs: seq<seq<Token>>, allowed: Option<set<Ngram>>): seq<seq<Token>> {
    if gs == [] then []
    else Kept(gs[..|gs| - 1], allowed) + (if Passes(allowed, gs[|gs| - 1]) then [gs[|gs| - 1]] else [])
  }

  function HashesOf(gs: seq<seq<Token>>): (r: seq<Ngram>)
    ensures |r| == |gs|
  {
    if gs == [] then [] else HashesOf(gs[..|gs| - 1]) + [NgramOf(gs[|gs| - 1])]
  }

  /** `g` is the run of `n` consecutive tokens of `ts` that starts at `i`. */
  ghost predicate WindowAt(ts: seq<Token>, i: int, n: nat, g: seq<Token>) {
    0 <= i && i + n <= |ts| && g == ts[i..i + n]
  }

  lemma WindowsOfSizeIff(ts: seq<Token>, n: nat, g: seq<Token>)
    requires n >= 1
    ensures g in WindowsOfSize(ts, n) <==> exists i :: WindowAt(ts, i, n, g)
  {
    var ws := WindowsOfSize(ts, n);
    if g in ws {
      var i :| 0 <= i < |ws| && ws[i] == g;
      assert WindowAt(ts, i, n, g);
    }
    if exists i :: WindowAt(ts, i, n, g) {
      var i :| WindowAt(ts, i, n, g);
      assert ws[i] == g;
    }
  }

  /** A window is generated exactly when it is a run of `1 ..= w` consecutive tokens. */
  lemma {:induction false} GeneratedIff(ts: seq<Token>, w: nat, g: seq<Token>)
    ensures g in Generated(ts, w) <==> exists i, n :: 1 <= n <= w && WindowAt(ts, i, n, g)
  {
    if w > 0 {
      GeneratedIff(ts, w - 1, g);
      WindowsOfSizeIff(ts, w, g);
      if exists i, n :: 1 <= n <= w && WindowAt(ts, i, n, g) {
        var i, n :| 1 <= n <= w && WindowAt(ts, i, n, g);
        if n == w {
          assert g in WindowsOfSize(ts, w);
        } else {
          assert g in Generated(ts, w - 1);
        }
      }
    }
  }

  /** A window is kept exactly when it is generated and passes the filter. */
  lemma {:induction false} KeptIff(gs: seq<seq<Token>>, allowed: Option<set<Ngram>>, g: seq<Token>)
    ensures g in Kept(gs, allowed) <==> g in gs && Passes(allowed, g)
  {
    if gs != [] {
      var init := gs[..|gs| - 1];
      KeptIff(init, allowed, g);
      assert gs == init + [gs[|gs| - 1]];
    }
  }

  /** Without an allowed set nothing is filtered out. */
  lemma {:induction false} KeptNone(gs: seq<seq<Token>>)
    ensures Kept(gs, None) == gs
  {
    if gs != [] {
      KeptNone(gs[..|gs| - 1]);
    }
  }

  lemma {:induction false} HashesOfIff(gs: seq<seq<Token>>, x: Ngram)
    ensures x in HashesOf(gs) <==> exists g :: g in gs && NgramOf(g) == x
  {
    if gs != [] {
      var init := gs[..|gs| - 1];
      var last := gs[|gs| - 1];
      HashesOfIff(init, x);
      assert gs == init + [last];
      assert HashesOf(gs) == HashesOf(init) + [NgramOf(last)];
      if exists g :: g in gs && NgramOf(g) == x {
        var g :| g in gs && NgramOf(g) == x;
        if g != last {
          assert g in init;
        }
      }
    }
  }

  /** `x` is the n-gram of a window of length `1 ..= w` at `i` that passes the filter. */
  ghost predicate StoredWindow(ts: seq<Token>, w: nat, allowed: Option<set<Ngram>>, i: int, n: nat, x: Ngram) {
    1 <= n <= w && 0 <= i && i + n <= |ts| && Passes(allowed, ts[i..i + n]) && NgramOf(ts[i..i + n]) == x
  }

  /** The n-grams of the kept windows of lengths `1 ..= w` (the content of `Ngrams` after `windows`). */
  ghost function Stored(ts: seq<Token>, w: nat, allowed: Option<set<Ngram>>): set<Ngram> {
    set x | x in HashesOf(Kept(Generated(ts, w), allowed))
  }

  /**
   * An n-gram is stored exactly when it is the n-gram of a run of `1 ..= w`
   * consecutive tokens that passes the filter: every stored one is allowed,
   * and every allowed window is stored.
   */
  lemma StoredIff(ts: seq<Token>, w: nat, allowed: Option<set<Ngram>>, x: Ngram)
    ensures x in Stored(ts, w, allowed) <==> exists i, n :: StoredWindow(ts, w, allowed, i, n, x)
  {
    var gs := Generated(ts, w);
    HashesOfIff(Kept(gs, allowed), x);
    if x in Stored(ts, w, allowed) {
      var g :| g in Kept(gs, allowed) && NgramOf(g) == x;
      KeptIff(gs, allowed, g);
      GeneratedIff(ts, w, g);
      var i: int, n: nat :| 1 <= n <= w && WindowAt(ts, i, n, g);
      assert StoredWindow(ts, w, allowed, i, n, x);
    }
    if exists i, n :: StoredWindow(ts, w, allowed, i, n, x) {
      var i: int, n: nat :| StoredWindow(ts, w, allowed, i, n, x);
      var g := ts[i..i + n];
      assert WindowAt(ts, i, n, g);
      GeneratedIff(ts, w, g);
      KeptIff(gs, allowed, g);
      assert g in Kept(gs, allowed);
    }
  }

  // ---------------------------------------------------------------------
  // Sorting and deduplication
  // ---------------------------------------------------------------------

  predicate StrictlyAscending(xs: seq<Ngram>) {
    forall i, j :: 0 <= i < j < |xs| ==> xs[i] < xs[j]
  }

  /** `x` put in its place in a strictly ascending list, unless already there. */
  function InsertSorted(ys: seq<Ngram>, x: Ngram): (r: seq<Ngram>)
    requires StrictlyAscending(ys)
    ensures StrictlyAscending(r)
    ensures forall z :: z in r <==> z in ys || z == x
  {
    if ys == [] then [x]
    else if x < ys[0] then [x] + ys
    else if x == ys[0] then ys
    else
      var rest := InsertSorted(ys[1..], x);
      AscendingCons(ys[0], rest);
      [ys[0]] + rest
  }

  lemma AscendingCons(a: Ngram, rest: seq<Ngram>)
    requires StrictlyAscending(rest)
    requires forall z :: z in rest ==> a < z
    ensures StrictlyAscending([a] + rest)
  {
    var r := [a] + rest;
    forall i, j | 0 <= i < j < |r| ensures r[i] < r[j] {
      assert r[j] == rest[j - 1] && rest[j - 1] in rest;
      if i > 0 {
        assert r[i] == rest[i - 1];
      }
    }
  }

  /** Two strictly ascending lists with the same elements start alike and continue alike. */
  lemma AscendingHeads(xs: seq<Ngram>, ys: seq<Ngram>)
    requires StrictlyAscending(xs) && StrictlyAscending(ys)
    requires forall z :: z in xs <==> z in ys
    requires xs != [] && ys != []
    ensures xs[0] == ys[0]
    ensures forall z :: z in xs[1..] <==> z in ys[1..]
  {
    assert xs[0] in ys && ys[0] in xs;
    var k :| 0 <= k < |ys| && ys[k] == xs[0];
    var l :| 0 <= l < |xs| && xs[l] == ys[0];
    forall z ensures z in xs[1..] <==> z in ys[1..] {
      if z in xs[1..] {
        assert z in ys && z != ys[0];
      }
      if z in ys[1..] {
        assert z in xs && z != xs[0];
      }
    }
  }

  /** A strictly ascending list is fixed by its elements: `sort` then `dedup` has one possible result. */
  lemma {:induction false} AscendingUnique(xs: seq<Ngram>, ys: seq<Ngram>)
    requires StrictlyAscending(xs) && StrictlyAscending(ys)
    requires forall z :: z in xs <==> z in ys
    ensures xs == ys
  {
    if xs != [] {
      assert xs[0] in ys;
    }
    if ys != [] {
      assert ys[0] in xs;
    }
    if xs != [] && ys != [] {
      AscendingHeads(xs, ys);
      AscendingUnique(xs[1..], ys[1..]);
      assert xs == [xs[0]] + xs[1..] && ys == [ys[0]] + ys[1..];
    }
  }

  /** `sort` followed by `dedup` (src/ngrams.rs:46-47). */
  method SortDedup(xs: seq<Ngram>) returns (ys: seq<Ngram>)
    ensures StrictlyAscending(ys)
    ensures forall z :: z in ys <==> z in xs
  {
    ys := [];
    for i := 0 to |xs|
      invariant StrictlyAscending(ys)
      invariant forall z :: z in ys <==> z in xs[..i]
    {
      assert xs[..i + 1] == xs[..i] + [xs[i]];
      ys := InsertSorted(ys, xs[i]);
    }
    assert xs[..|xs|] == xs;
  }

  // ---------------------------------------------------------------------
  // The list of n-grams of one token sequence
  // ---------------------------------------------------------------------

  /** What the generation loops have produced from the windows `gen` so far. */
  ghost predicate Filled(found: seq<Ngram>, d: Option<seq<seq<Token>>>, debug: Option<seq<seq<Token>>>,
                         gen: seq<seq<Token>>, allowed: Option<set<Ngram>>) {
    && found == HashesOf(Kept(gen, allowed))
    && (debug.Some? <==> d.Some?)
    && (debug.Some? ==> d.value == debug.value + Kept(gen, allowed))
  }

  lemma KeptSnoc(gen: seq<seq<Token>>, window: seq<Token>, allowed: Option<set<Ngram>>)
    ensures Kept(gen + [window], allowed) == Kept(gen, allowed) + (if Passes(allowed, window) then [window] else [])
  {
    var g2 := gen + [window];
    assert g2[..|g2| - 1] == gen;
  }

  lemma HashesOfSnoc(k: seq<seq<Token>>, window: seq<Token>)
    ensures HashesOf(k + [window]) == HashesOf(k) + [NgramOf(window)]
  {
    var k2 := k + [window];
    assert k2[..|k2| - 1] == k;
  }

  lemma FilledStep(found: seq<Ngram>, d: Option<seq<seq<Token>>>, debug: Option<seq<seq<Token>>>,
                   gen: seq<seq<Token>>, allowed: Option<set<Ngram>>, window: seq<Token>,
                   found2: seq<Ngram>, d2: Option<seq<seq<Token>>>)
    requires Filled(found, d, debug, gen, allowed)
    requires found2 == if Passes(allowed, window) then found + [NgramOf(window)] else found
    requires d2 == if Passes(allowed, window) && d.Some? then Some(d.value + [window]) else d
    ensures Filled(found2, d2, debug, gen + [window], allowed)
  {
    KeptSnoc(gen, window, allowed);
    if Passes(allowed, window) {
      FilledPass(found, d, debug, gen, allowed, window);
    } else {
      assert Kept(gen + [window], allowed) == Kept(gen, allowed);
    }
  }

  /** A window that passes the filter: its n-gram and the window are appended. */
  lemma FilledPass(found: seq<Ngram>, d: Option<seq<seq<Token>>>, debug: Option<seq<seq<Token>>>,
                   gen: seq<seq<Token>>, allowed: Option<set<Ngram>>, window: seq<Token>)
    requires Filled(found, d, debug, gen, allowed)
    requires Kept(gen + [window], allowed) == Kept(gen, allowed) + [window]
    ensures Filled(found + [NgramOf(window)], if d.Some? then Some(d.value + [window]) else d,
                   debug, gen + [window], allowed)
  {
    var k := Kept(gen, allowed);
    HashesOfSnoc(k, window);
    if d.Some? {
      assert d.value + [window] == debug.value + (k + [window]);
    }
  }

  lemma SnocPrefix<T>(a: seq<T>, ws: seq<T>, k: nat)
    requires k <= |ws|
    ensures k < |ws| ==> a + ws[..k + 1] == (a + ws[..k]) + [ws[k]]
    ensures k == |ws| ==> a + ws[..k] == a + ws
  {
    if k < |ws| {
      assert ws[..k + 1] == ws[..k] + [ws[k]];
    }
  }

  /** One window (src/ngrams.rs:34-43): its n-gram is kept, and the window logged, when it passes the filter. */
  method Consider(window: seq<Token>, allowed: Option<set<Ngram>>, found: seq<Ngram>, d: Option<seq<seq<Token>>>,
                  ghost debug: Option<seq<seq<Token>>>, ghost done: seq<seq<Token>>)
    returns (found2: seq<Ngram>, d2: Option<seq<seq<Token>>>)
    requires Filled(found, d, debug, done, allowed)
    ensures Filled(found2, d2, debug, done + [window], allowed)
  {
    found2, d2 := found, d;
    var ngram := NgramOf(window);
    if allowed.None? || ngram in allowed.value {
      found2 := found2 + [ngram];
      if d2.Some? {
        d2 := Some(d2.value + [window]);
      }
    }
    FilledStep(found, d, debug, done, allowed, window, found2, d2);
  }

  /** The inner loop of src/ngrams.rs:33-44: the windows of one length `n`. */
  method CollectSize(ts: seq<Token>, n: nat, allowed: Option<set<Ngram>>, found: seq<Ngram>,
                     d: Option<seq<seq<Token>>>, ghost debug: Option<seq<seq<Token>>>, ghost gen: seq<seq<Token>>)
    returns (found2: seq<Ngram>, d2: Option<seq<seq<Token>>>)
    requires n >= 1
    requires gen == Generated(ts, n - 1) && Filled(found, d, debug, gen, allowed)
    ensures Filled(found2, d2, debug, Generated(ts, n), allowed)
  {
    found2, d2 := found, d;
    var ws := WindowsOfSize(ts, n);
    ghost var done := gen;
    for k := 0 to |ws|
      invariant done == gen + ws[..k]
      invariant Filled(found2, d2, debug, done, allowed)
    {
      var window := ws[k];
      SnocPrefix(gen, ws, k);
      found2, d2 := Consider(window, allowed, found2, d2, debug, done);
      done := done + [window];
    }
    SnocPrefix(gen, ws, |ws|);
  }

  class Ngrams {
    var items: seq<Ngram>

    /** `Ngrams::default()`. */
    constructor ()
      ensures items == []
    {
      items := [];
    }

    /**
     * src/ngrams.rs:24-48: the list is cleared, refilled with the n-grams of
     * the windows that pass the filter, then sorted and deduplicated. The
     * optional debug list receives every window that passed, in generation
     * order.
     */
    method Windows(ts: seq<Token>, w: nat, allowed: Option<set<Ngram>>, debug: Option<seq<seq<Token>>>)
      returns (debug2: Option<seq<seq<Token>>>)
      modifies this
      ensures StrictlyAscending(items)
      ensures forall x :: x in items <==> x in Stored(ts, w, allowed)
      ensures debug.Some? <==> debug2.Some?
      ensures debug.Some? ==> debug2.value == debug.value + Kept(Generated(ts, w), allowed)
    {
      var found: seq<Ngram> := [];
      debug2 := debug;
      ghost var gen: seq<seq<Token>> := [];
      for n := 1 to w + 1
        invariant gen == Generated(ts, n - 1)
        invariant Filled(found, debug2, debug, gen, allowed)
      {
        found, debug2 := CollectSize(ts, n, allowed, found, debug2, debug, gen);
        gen := Generated(ts, n);
      }
      items := SortDedup(found);
    }
  }

  /** A filter with an allowed set stores nothing outside it. */
  lemma StoredAllowed(ts: seq<Token>, w: nat, allowed: set<Ngram>, x: Ngram)
    requires x in Stored(ts, w, Some(allowed))
    ensures x in allowed
  {
    StoredIff(ts, w, Some(allowed), x);
  }

  // ---------------------------------------------------------------------
  // Counting over paths
  // ---------------------------------------------------------------------

  /** `u8::saturating_add`. */
  function SatAdd(a: nat, b: nat): (r: nat)
    requires a <= 255 && b <= 255
    ensures r <= 255
  {
    if a + b > 255 then 255 else a + b
  }

  /** A count held in a `u8` counter that saturates. */
  function Cap(n: nat): (r: nat)
    ensures r <= 255
  {
    if n > 255 then 255 else n
  }

  /** Adding two saturated counts saturates their sum: the order of the chunk merges does not matter. */
  lemma SatAddCap(a: nat, b: nat)
    ensures SatAdd(Cap(a), Cap(b)) == Cap(a + b)
  {
  }

  /** How many of the sets contain `x`. */
  function PathCount(x: Ngram, sets: seq<set<Ngram>>): (r: nat)
    ensures r <= |sets|
  {
    if sets == [] then 0 else PathCount(x, sets[..|sets| - 1]) + (if x in sets[|sets| - 1] then 1 else 0)
  }

  lemma {:induction false} PathCountAppend(x: Ngram, a: seq<set<Ngram>>, b: seq<set<Ngram>>)
    ensures PathCount(x, a + b) == PathCount(x, a) + PathCount(x, b)
  {
    if b != [] {
      PathCountAppend(x, a, b[..|b| - 1]);
      assert (a + b)[..|a + b| - 1] == a + b[..|b| - 1];
    } else {
      assert a + b == a;
    }
  }

  /** The part of a trained tokenizer that decides how a path is encoded. */
  datatype Encoding = Encoding(strToken: map<string, Token>, merges: seq<(Pair, Token)>)

  ghost function EncodingOf(t: PairTokenizer): Encoding
    reads t, t.tokenMap
  {
    Encoding(t.tokenMap.strToken, t.merges)
  }

  /** The token sequence `tokenize` gives a path. */
  function Encoded(e: Encoding, s: string): seq<Token> {
    ApplyMerges(CharIds(e.strToken, s), e.merges)
  }

  /** The n-grams of each path, deduplicated per path. */
  ghost function PathSets(e: Encoding, paths: seq<string>, w: nat): (r: seq<set<Ngram>>)
    ensures |r| == |paths|
  {
    seq(|paths|, i requires 0 <= i < |paths| => Stored(Encoded(e, paths[i]), w, None))
  }

  /** The counters agree with the saturated number of paths containing each n-gram. */
  ghost predicate CountsOf(counts: map<Ngram, nat>, sets: seq<set<Ngram>>) {
    forall x: Ngram :: (x in counts <==> PathCount(x, sets) > 0) && (x in counts ==> counts[x] == Cap(PathCount(x, sets)))
  }

  function Get(counts: map<Ngram, nat>, x: Ngram): nat {
    if x in counts then counts[x] else 0
  }

  /** The counters after the n-grams `done` of one more path have been counted. */
  ghost predicate CountedWith(r: map<Ngram, nat>, sets: seq<set<Ngram>>, done: seq<Ngram>) {
    forall x: Ngram ::
      && (x in r <==> PathCount(x, sets) > 0 || x in done)
      && (x in r ==> r[x] == Cap(PathCount(x, sets) + (if x in done then 1 else 0)))
  }

  lemma CountedStep(r: map<Ngram, nat>, sets: seq<set<Ngram>>, done: seq<Ngram>, x: Ngram)
    requires CountedWith(r, sets, done) && x !in done
    ensures Get(r, x) <= 255
    ensures CountedWith(r[x := SatAdd(Get(r, x), 1)], sets, done + [x])
  {
  }

  lemma CountedDone(r: map<Ngram, nat>, sets: seq<set<Ngram>>, items: seq<Ngram>)
    requires CountedWith(r, sets, items)
    ensures CountsOf(r, sets + [set x | x in items])
  {
    var all := sets + [set x | x in items];
    assert all[..|all| - 1] == sets;
  }

  /** One saturating increment per n-gram of a deduplicated list (src/ngrams.rs:75-78). */
  method CountItems(counts: map<Ngram, nat>, items: seq<Ngram>, ghost sets: seq<set<Ngram>>) returns (r: map<Ngram, nat>)
    requires StrictlyAscending(items)
    requires CountsOf(counts, sets)
    ensures CountsOf(r, sets + [set x | x in items])
  {
    r := counts;
    for m := 0 to |items|
      invariant CountedWith(r, sets, items[..m])
    {
      var x := items[m];
      assert x !in items[..m];
      assert items[..m + 1] == items[..m] + [x];
      CountedStep(r, sets, items[..m], x);
      r := r[x := SatAdd(Get(r, x), 1)];
    }
    assert items[..|items|] == items;
    CountedDone(r, sets, items);
  }

  /** One path of a parallel task (src/ngrams.rs:72-78): tokenized, its windows listed, each n-gram counted once. */
  method CountPath(local: map<Ngram, nat>, temp: Ngrams, t: PairTokenizer, s: string, w: nat, ghost sets: seq<set<Ngram>>)
    returns (local2: map<Ngram, nat>)
    requires t.Valid() && CountsOf(local, sets)
    modifies temp
    ensures CountsOf(local2, sets + [Stored(Encoded(EncodingOf(t), s), w, None)])
  {
    var tokens := t.Tokenize(s);
    var _ := temp.Windows(tokens.tokens, w, None, None);
    local2 := CountItems(local, temp.items, sets);
    assert (set x | x in temp.items) == Stored(Encoded(EncodingOf(t), s), w, None);
  }

  lemma PathSetsAppend(e: Encoding, a: seq<string>, b: seq<string>, w: nat)
    ensures PathSets(e, a + b, w) == PathSets(e, a, w) + PathSets(e, b, w)
  {
    var l, r := PathSets(e, a + b, w), PathSets(e, a, w) + PathSets(e, b, w);
    forall i | 0 <= i < |l| ensures l[i] == r[i] {
      if i < |a| {
        assert (a + b)[i] == a[i];
      } else {
        assert (a + b)[i] == b[i - |a|];
      }
    }
  }

  lemma PathSetsSnoc(e: Encoding, ps: seq<string>, j: nat, w: nat)
    requires j < |ps|
    ensures PathSets(e, ps[..j + 1], w) == PathSets(e, ps[..j], w) + [Stored(Encoded(e, ps[j]), w, None)]
  {
    PathSetsAppend(e, ps[..j], [ps[j]], w);
    assert ps[..j] + [ps[j]] == ps[..j + 1];
  }

  lemma PathSetsSplit(e: Encoding, ps: seq<string>, start: nat, end: nat, w: nat)
    requires start <= end <= |ps|
    ensures PathSets(e, ps[..end], w) == PathSets(e, ps[..start], w) + PathSets(e, ps[start..end], w)
  {
    PathSetsAppend(e, ps[..start], ps[start..end], w);
    assert ps[..start] + ps[start..end] == ps[..end];
  }

  lemma PathSetsWhole(e: Encoding, ps: seq<string>, w: nat)
    ensures PathSets(e, ps[..|ps|], w) == PathSets(e, ps, w)
  {
    assert ps[..|ps|] == ps;
  }

  /** The counting body of one parallel task (src/ngrams.rs:68-81). */
  method CountChunk(chunk: seq<string>, t: PairTokenizer, w: nat) returns (local: map<Ngram, nat>)
    requires t.Valid()
    ensures CountsOf(local, PathSets(EncodingOf(t), chunk, w))
  {
    local := map[];
    var temp := new Ngrams();
    for j := 0 to |chunk|
      invariant CountsOf(local, PathSets(EncodingOf(t), chunk[..j], w))
    {
      local := CountPath(local, temp, t, chunk[j], w, PathSets(EncodingOf(t), chunk[..j], w));
      PathSetsSnoc(EncodingOf(t), chunk, j, w);
    }
    PathSetsWhole(EncodingOf(t), chunk, w);
  }

  /** The reduction step (src/ngrams.rs:84-91): every local counter added into the accumulator. */
  method MergeCounts(acc: map<Ngram, nat>, local: map<Ngram, nat>, ghost a: seq<set<Ngram>>, ghost b: seq<set<Ngram>>)
    returns (r: map<Ngram, nat>)
    requires CountsOf(acc, a) && CountsOf(local, b)
    ensures CountsOf(r, a + b)
  {
    r := acc;
    var rest := local.Keys;
    while rest != {}
      invariant rest <= local.Keys
      invariant forall x: Ngram :: (x in r <==> x in acc || (x in local && x !in rest))
      invariant forall x: Ngram :: x in r ==> r[x] == if x in local && x !in rest then SatAdd(Get(acc, x), local[x]) else acc[x]
      decreases |rest|
    {
      var x :| x in rest;
      r := r[x := SatAdd(Get(r, x), local[x])];
      rest := rest - {x};
    }
    forall x: Ngram
      ensures (x in r <==> PathCount(x, a + b) > 0) && (x in r ==> r[x] == Cap(PathCount(x, a + b)))
    {
      PathCountAppend(x, a, b);
      SatAddCap(PathCount(x, a), PathCount(x, b));
    }
  }

  /** One chunk counted on its own and merged into the running total (src/ngrams.rs:68-91). */
  method CountRange(acc: map<Ngram, nat>, paths: seq<string>, start: nat, end: nat, t: PairTokenizer, w: nat)
    returns (r: map<Ngram, nat>)
    requires t.Valid() && start <= end <= |paths|
    requires CountsOf(acc, PathSets(EncodingOf(t), paths[..start], w))
    ensures CountsOf(r, PathSets(EncodingOf(t), paths[..end], w))
  {
    var local := CountChunk(paths[start..end], t, w);
    r := MergeCounts(acc, local, PathSets(EncodingOf(t), paths[..start], w), PathSets(EncodingOf(t), paths[start..end], w));
    PathSetsSplit(EncodingOf(t), paths, start, end, w);
  }

  /** The n-grams whose counter exceeds one (src/ngrams.rs:93-98). */
  function Frequent(acc: map<Ngram, nat>): (r: set<Ngram>)
    ensures forall x :: x in r <==> x in acc && acc[x] > 1
  {
    set x | x in acc && acc[x] > 1
  }

  /** Saturation at 255 does not disturb the test `count > 1`. */
  lemma FrequentCounts(acc: map<Ngram, nat>, sets: seq<set<Ngram>>)
    requires CountsOf(acc, sets)
    ensures forall x: Ngram :: x in Frequent(acc) <==> PathCount(x, sets) >= 2
  {
  }

  /**
   * `count_and_filter_from_paths` (src/ngrams.rs:59-99): the paths in
   * chunks of `max(100, n / (cpus * 10))`, each chunk counted on its own
   * and merged into the total; the result holds the n-grams whose count
   * exceeds one, which are exactly those found in at least two paths.
   */
  method CountAndFilterFromPaths(paths: seq<string>, t: PairTokenizer, w: nat, cpus: nat) returns (r: set<Ngram>)
    requires t.Valid() && cpus > 0
    ensures forall x: Ngram :: x in r <==> PathCount(x, PathSets(EncodingOf(t), paths, w)) >= 2
  {
    var chunkSize := if |paths| / (cpus * 10) > 100 then |paths| / (cpus * 10) else 100;
    var acc: map<Ngram, nat> := map[];
    var start := 0;
    while start < |paths|
      invariant start <= |paths|
      invariant CountsOf(acc, PathSets(EncodingOf(t), paths[..start], w))
      decreases |paths| - start
    {
      var end := if start + chunkSize < |paths| then start + chunkSize else |paths|;
      acc := CountRange(acc, paths, start, end, t, w);
      start := end;
    }
    PathSetsWhole(EncodingOf(t), paths, w);
    r := Frequent(acc);
    FrequentCounts(acc, PathSets(EncodingOf(t), paths, w));
  }
}
