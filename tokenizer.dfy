/**
 * The legacy word/char tokenizer with interning (src/tokenizer.rs).
 *
 * A path is lower-cased and cut into token strings, either into words
 * (maximal alphanumeric runs) or into characters (alphanumerics and `/`
 * kept one by one, every run of other characters collapsed into one " ").
 * Construction counts, per file and after deduplication, how many files
 * contain each token string and each window of token ids, and interns
 * those found in more than one file under consecutive ids starting at 1;
 * id 0 is the default that the cached lookups give everything else.
 */
module LegacyTokenizer {
  import opened Chars
  import Ngrams

  /** `Tokenize`: how a path is cut into token strings. */
  datatype Mode = Words | Characters

  // ---------------------------------------------------------------------
  // Words mode
  // ---------------------------------------------------------------------

  /** `str::split` under way: the pieces already closed by a separator, and the open one. */
  datatype Cut = Cut(closed: seq<string>, open: string)

  /** One more character: an alphanumeric extends the open piece, a separator closes it. */
  function CutStep(cut: Cut, c: char): Cut {
    if IsAlphanumeric(c) then Cut(cut.closed, cut.open + [c]) else Cut(cut.closed + [cut.open], [])
  }

  function Scan(s: string): Cut {
    if s == [] then Cut([], []) else CutStep(Scan(s[..|s| - 1]), s[|s| - 1])
  }

  /**
   * `str::split` with the separator "not alphanumeric": the pieces between
   * separators, left to right, empty ones included (one more piece than
   * there are separators).
   */
  function Pieces(s: string): (r: seq<string>)
    ensures |r| >= 1
  {
    Scan(s).closed + [Scan(s).open]
  }

  /** `filter(|word| !word.is_empty())`. */
  function NonEmpty(ps: seq<string>): seq<string> {
    if ps == [] then []
    else NonEmpty(ps[..|ps| - 1]) + (if ps[|ps| - 1] != [] then [ps[|ps| - 1]] else [])
  }

  /** A word as Words mode produces it: non-empty, alphanumeric, lower-case. */
  predicate IsWord(w: string) {
    w != [] && forall i :: 0 <= i < |w| ==> IsAlphanumeric(w[i]) && !('A' <= w[i] <= 'Z')
  }

  predicate AllWords(ws: seq<string>) {
    forall i :: 0 <= i < |ws| ==> IsWord(ws[i])
  }

  /** The words joined by one separator each. */
  function Join(ws: seq<string>, sep: char): string {
    if ws == [] then []
    else if |ws| == 1 then ws[0]
    else Join(ws[..|ws| - 1], sep) + [sep] + ws[|ws| - 1]
  }

  lemma JoinSnoc(ws: seq<string>, sep: char)
    requires |ws| > 1
    ensures Join(ws, sep) == (Join(ws[..|ws| - 1], sep) + [sep]) + ws[|ws| - 1]
  {
  }

  /** `p` is a run of alphanumerics, each of them a character of `s`. */
  ghost predicate FromText(p: string, s: string) {
    forall i :: 0 <= i < |p| ==> IsAlphanumeric(p[i]) && p[i] in s
  }

  lemma {:induction false} ScanFromText(s: string)
    ensures FromText(Scan(s).open, s)
    ensures forall p :: p in Scan(s).closed ==> FromText(p, s)
  {
    if s != [] {
      var init, c := s[..|s| - 1], s[|s| - 1];
      ScanFromText(init);
      var cut := Scan(init);
      assert forall ch :: ch in init ==> ch in s;
      assert forall p :: FromText(p, init) ==> FromText(p, s);
      if IsAlphanumeric(c) {
        var o := cut.open + [c];
        assert forall i :: 0 <= i < |o| ==> o[i] == if i < |cut.open| then cut.open[i] else c;
      }
    }
  }

  /** Every piece is a run of alphanumerics taken from the text. */
  lemma PiecesAlphanumeric(s: string)
    ensures forall p :: p in Pieces(s) ==> FromText(p, s)
  {
    ScanFromText(s);
  }

  lemma NonEmptyMembers(ps: seq<string>, w: string)
    ensures w in NonEmpty(ps) <==> w in ps && w != []
  {
  }

  predicate Alphanumerics(w: string) {
    forall i :: 0 <= i < |w| ==> IsAlphanumeric(w[i])
  }

  lemma AppendSnoc<T>(x: seq<T>, w: seq<T>)
    requires w != []
    ensures x + w == (x + w[..|w| - 1]) + [w[|w| - 1]]
  {
    assert w == w[..|w| - 1] + [w[|w| - 1]];
  }

  lemma ScanSnoc(s: string, c: char)
    ensures Scan(s + [c]) == CutStep(Scan(s), c)
  {
    assert (s + [c])[..|s|] == s;
  }

  /** Appending alphanumerics extends the open piece. */
  lemma {:induction false} ScanExtend(x: string, w: string)
    requires Alphanumerics(w)
    ensures Scan(x + w) == Cut(Scan(x).closed, Scan(x).open + w)
  {
    if w == [] {
      assert x + w == x;
      assert Scan(x).open + w == Scan(x).open;
    } else {
      var init, c := w[..|w| - 1], w[|w| - 1];
      assert Alphanumerics(init) && IsAlphanumeric(c);
      ScanExtend(x, init);
      AppendSnoc(x, w);
      ScanSnoc(x + init, c);
      AppendSnoc(Scan(x).open, w);
    }
  }

  /** A separator closes the open piece. */
  lemma ScanSep(x: string, sep: char)
    requires !IsAlphanumeric(sep)
    ensures Scan(x + [sep]) == Cut(Scan(x).closed + [Scan(x).open], [])
  {
    assert (x + [sep])[..|x|] == x;
  }

  lemma {:induction false} ScanJoin(ws: seq<string>, sep: char)
    requires ws != [] && AllWords(ws)
    requires !IsAlphanumeric(sep)
    ensures Scan(Join(ws, sep)) == Cut(ws[..|ws| - 1], ws[|ws| - 1])
  {
    var last := ws[|ws| - 1];
    assert IsWord(last);
    if |ws| == 1 {
      ScanExtend([], last);
      assert [] + last == last;
    } else {
      var init := ws[..|ws| - 1];
      assert AllWords(init);
      ScanJoin(init, sep);
      ScanSep(Join(init, sep), sep);
      assert init[..|init| - 1] + [init[|init| - 1]] == init;
      ScanExtend(Join(init, sep) + [sep], last);
      assert [] + last == last;
      JoinSnoc(ws, sep);
    }
  }

  /** Joined words split back into exactly those words. */
  lemma PiecesJoin(ws: seq<string>, sep: char)
    requires ws != [] && AllWords(ws)
    requires !IsAlphanumeric(sep)
    ensures Pieces(Join(ws, sep)) == ws
  {
    ScanJoin(ws, sep);
    assert ws[..|ws| - 1] + [ws[|ws| - 1]] == ws;
  }

  lemma {:induction false} NonEmptyWords(ws: seq<string>)
    requires AllWords(ws)
    ensures NonEmpty(ws) == ws
  {
    if ws != [] {
      NonEmptyWords(ws[..|ws| - 1]);
    }
  }

  /** Text without upper-case letters is its own lower-case form. */
  lemma LowerFixes(s: string)
    requires forall i :: 0 <= i < |s| ==> !('A' <= s[i] <= 'Z')
    ensures Lower(s) == s
  {
  }

  lemma {:induction false} JoinNoUpper(ws: seq<string>, sep: char)
    requires AllWords(ws)
    requires !('A' <= sep <= 'Z')
    ensures forall i :: 0 <= i < |Join(ws, sep)| ==> !('A' <= Join(ws, sep)[i] <= 'Z')
  {
    if |ws| > 1 {
      JoinNoUpper(ws[..|ws| - 1], sep);
      var a := Join(ws[..|ws| - 1], sep);
      var last := ws[|ws| - 1];
      forall i | 0 <= i < |Join(ws, sep)| ensures !('A' <= Join(ws, sep)[i] <= 'Z') {
        if i > |a| {
          assert Join(ws, sep)[i] == last[i - |a| - 1];
        }
      }
    }
  }

  // ---------------------------------------------------------------------
  // Chars mode
  // ---------------------------------------------------------------------

  /** A character Chars mode keeps as a token of its own. */
  predicate KeptChar(c: char) {
    IsAlphanumeric(c) || c == '/'
  }

  /** One character of the loop of src/tokenizer.rs:152-159. */
  function CharStep(r: seq<string>, c: char): seq<string> {
    if KeptChar(c) then r + [[c]]
    else if r == [] || r[|r| - 1] != " " then r + [" "]
    else r
  }

  function CharTokens(s: string): seq<string> {
    if s == [] then [] else CharStep(CharTokens(s[..|s| - 1]), s[|s| - 1])
  }

  /** The kept characters of `s`, in order. */
  function KeptChars(s: string): string {
    if s == [] then []
    else KeptChars(s[..|s| - 1]) + (if KeptChar(s[|s| - 1]) then [s[|s| - 1]] else [])
  }

  /** The tokens other than " ", concatenated. */
  function Unspaced(ts: seq<string>): string {
    if ts == [] then []
    else Unspaced(ts[..|ts| - 1]) + (if ts[|ts| - 1] != " " then ts[|ts| - 1] else [])
  }

  /** The shape of a token list Chars mode builds: single characters, no two " " in a row. */
  ghost predicate CharShaped(ts: seq<string>) {
    && (forall i :: 0 <= i < |ts| ==> |ts[i]| == 1 && (KeptChar(ts[i][0]) || ts[i] == " "))
    && (forall i :: 0 <= i < |ts| - 1 ==> !(ts[i] == " " && ts[i + 1] == " "))
  }

  /**
   * Chars mode yields one-character tokens, never two " " in a row, and
   * the number of tokens never exceeds the number of characters.
   */
  lemma {:induction false} CharTokensShape(s: string)
    ensures CharShaped(CharTokens(s))
    ensures |CharTokens(s)| <= |s|
  {
    if s != [] {
      CharTokensShape(s[..|s| - 1]);
    }
  }

  /** Dropping the " " tokens leaves exactly the kept characters, in order. */
  lemma {:induction false} CharTokensKeep(s: string)
    ensures Unspaced(CharTokens(s)) == KeptChars(s)
  {
    if s != [] {
      var r := CharTokens(s[..|s| - 1]);
      var c := s[|s| - 1];
      CharTokensKeep(s[..|s| - 1]);
      if KeptChar(c) {
        assert (r + [[c]])[..|r|] == r;
      } else if r == [] || r[|r| - 1] != " " {
        assert (r + [" "])[..|r|] == r;
      }
    }
  }

  /** A " " token appears exactly when the text has a character that is not kept. */
  lemma {:induction false} CharTokensSpace(s: string)
    ensures " " in CharTokens(s) <==> exists i :: 0 <= i < |s| && !KeptChar(s[i])
  {
    if s != [] {
      var init := s[..|s| - 1];
      CharTokensSpace(init);
      if exists i :: 0 <= i < |init| && !KeptChar(init[i]) {
        var i :| 0 <= i < |init| && !KeptChar(init[i]);
        assert !KeptChar(s[i]);
      }
      if exists i :: 0 <= i < |s| && !KeptChar(s[i]) {
        var i :| 0 <= i < |s| && !KeptChar(s[i]);
        if i < |init| {
          assert !KeptChar(init[i]);
        }
      }
    }
  }

  // ---------------------------------------------------------------------
  // Token strings, cached ids and windows
  // ---------------------------------------------------------------------

  /** `tokenize_new` (src/tokenizer.rs:137-163): lower-case, then cut by mode. */
  function TokenStrings(mode: Mode, path: string): seq<string> {
    match mode
    case Words => NonEmpty(Pieces(Lower(path)))
    case Characters => CharTokens(Lower(path))
  }

  /** Words mode is a left inverse of joining lower-case words with any non-alphanumeric separator. */
  lemma WordsRoundTrip(ws: seq<string>, sep: char)
    requires AllWords(ws)
    requires !IsAlphanumeric(sep)
    ensures TokenStrings(Words, Join(ws, sep)) == ws
  {
    JoinNoUpper(ws, sep);
    LowerFixes(Join(ws, sep));
    if ws != [] {
      PiecesJoin(ws, sep);
      NonEmptyWords(ws);
    }
  }

  /** Every word is non-empty, alphanumeric and lower-case. */
  lemma WordsAreWords(path: string)
    ensures forall w :: w in TokenStrings(Words, path) ==> IsWord(w)
  {
    PiecesAlphanumeric(Lower(path));
    assert forall c :: c in Lower(path) ==> !('A' <= c <= 'Z');
    forall w | w in TokenStrings(Words, path) ensures IsWord(w) {
      NonEmptyMembers(Pieces(Lower(path)), w);
      assert FromText(w, Lower(path));
    }
  }

  /** The value of a key, or 0 (`unwrap_or_default`) when the key is unknown. */
  function Get<K(==)>(m: map<K, nat>, key: K): nat {
    if key in m then m[key] else 0
  }

  /** Each key looked up in turn. */
  function Cached<K(==)>(m: map<K, nat>, xs: seq<K>): (r: seq<nat>)
    ensures |r| == |xs|
    ensures forall i :: 0 <= i < |xs| ==> r[i] == Get(m, xs[i])
  {
    if xs == [] then [] else Cached(m, xs[..|xs| - 1]) + [Get(m, xs[|xs| - 1])]
  }

  /** The smallest window `ngrams_new` emits: single tokens in Words mode, pairs in Chars mode. */
  function Smallest(mode: Mode): nat {
    match mode
    case Words => 1
    case Characters => 2
  }

  /** The windows of lengths `lo ..= hi`, shortest first. */
  function Sized(ts: seq<nat>, lo: nat, hi: nat): seq<seq<nat>>
    requires lo >= 1
  {
    if hi < lo then [] else Sized(ts, lo, hi - 1) + Ngrams.WindowsOfSize(ts, hi)
  }

  /** One more length appends its windows at the end. */
  lemma SizedStep(ts: seq<nat>, lo: nat, hi: nat)
    requires lo >= 1 && hi + 1 >= lo
    ensures Sized(ts, lo, hi + 1) == Sized(ts, lo, hi) + Ngrams.WindowsOfSize(ts, hi + 1)
  {
  }

  /** A window is emitted exactly when it is a run of `lo ..= hi` consecutive tokens. */
  lemma {:induction false} SizedIff(ts: seq<nat>, lo: nat, hi: nat, g: seq<nat>)
    requires lo >= 1
    ensures g in Sized(ts, lo, hi) <==> exists i, n :: lo <= n <= hi && Ngrams.WindowAt(ts, i, n, g)
  {
    if hi >= lo {
      SizedIff(ts, lo, hi - 1, g);
      Ngrams.WindowsOfSizeIff(ts, hi, g);
      if exists i, n :: lo <= n <= hi && Ngrams.WindowAt(ts, i, n, g) {
        var i, n :| lo <= n <= hi && Ngrams.WindowAt(ts, i, n, g);
        if n == hi {
          assert g in Ngrams.WindowsOfSize(ts, hi);
        } else {
          assert g in Sized(ts, lo, hi - 1);
        }
      }
    }
  }

  /** Every window has a length in `lo ..= hi`. */
  ghost predicate LengthsIn(gs: seq<seq<nat>>, lo: nat, hi: nat) {
    forall a :: 0 <= a < |gs| ==> lo <= |gs[a]| <= hi
  }

  ghost predicate Nondecreasing(gs: seq<seq<nat>>) {
    forall a, b :: 0 <= a < b < |gs| ==> |gs[a]| <= |gs[b]|
  }

  lemma AppendLonger(s: seq<seq<nat>>, ws: seq<seq<nat>>, lo: nat, hi: nat)
    requires 1 <= lo <= hi
    requires LengthsIn(s, lo, hi - 1) && Nondecreasing(s)
    requires forall a :: 0 <= a < |ws| ==> |ws[a]| == hi
    ensures LengthsIn(s + ws, lo, hi) && Nondecreasing(s + ws)
  {
  }

  /** Windows come out in order of increasing length, each of a length in `lo ..= hi`. */
  lemma {:induction false} SizedOrdered(ts: seq<nat>, lo: nat, hi: nat)
    requires lo >= 1
    ensures LengthsIn(Sized(ts, lo, hi), lo, hi)
    ensures Nondecreasing(Sized(ts, lo, hi))
  {
    if hi >= lo {
      SizedOrdered(ts, lo, hi - 1);
      AppendLonger(Sized(ts, lo, hi - 1), Ngrams.WindowsOfSize(ts, hi), lo, hi);
    }
  }

  /** `ngrams_new` on a path: the windows of its cached token ids. */
  function Windows(mode: Mode, k: nat, stringToken: map<string, nat>, path: string): seq<seq<nat>> {
    Sized(Cached(stringToken, TokenStrings(mode, path)), Smallest(mode), k)
  }

  // ---------------------------------------------------------------------
  // Interning
  // ---------------------------------------------------------------------

  /**
   * The invariant of a pair of interning maps: the ids in use are exactly
   * `1 ..= count`, the two maps are inverse, and each holds `count` entries.
   */
  ghost predicate Interned<K>(count: nat, byId: map<nat, K>, byKey: map<K, nat>) {
    && (forall i :: i in byId <==> 1 <= i <= count)
    && (forall key :: key in byKey ==> byKey[key] in byId && byId[byKey[key]] == key)
    && (forall i :: i in byId ==> byId[i] in byKey && byKey[byId[i]] == i)
    && |byId| == count && |byKey| == count
  }

  lemma InternedEmpty<K>()
    ensures Interned<K>(0, map[], map[])
  {
  }

  /** Interning a new key under `count + 1` keeps the invariant. */
  lemma InternFresh<K>(count: nat, byId: map<nat, K>, byKey: map<K, nat>, key: K)
    requires Interned(count, byId, byKey) && key !in byKey
    ensures Interned(count + 1, byId[count + 1 := key], byKey[key := count + 1])
  {
    assert count + 1 !in byId;
  }

  /**
   * A cached lookup against interned maps gives 0 exactly for unknown keys
   * and otherwise an id that maps back to the key.
   */
  lemma CachedDecodes<K>(count: nat, byId: map<nat, K>, byKey: map<K, nat>, xs: seq<K>)
    requires Interned(count, byId, byKey)
    ensures forall i :: 0 <= i < |xs| ==> (Cached(byKey, xs)[i] == 0 <==> xs[i] !in byKey)
    ensures forall i :: 0 <= i < |xs| && xs[i] in byKey ==> byId[Cached(byKey, xs)[i]] == xs[i]
  {
  }

  // ---------------------------------------------------------------------
  // Counting files
  // ---------------------------------------------------------------------

  /** The number of sets that contain `x`. */
  function Holders<K>(sets: seq<set<K>>, x: K): nat {
    if sets == [] then 0 else Holders(sets[..|sets| - 1], x) + (if x in sets[|sets| - 1] then 1 else 0)
  }

  /** The counters hold, for every key present in some set, the number of sets holding it. */
  ghost predicate Tallied<K(!new)>(counts: map<K, nat>, sets: seq<set<K>>) {
    forall x :: (x in counts <==> Holders(sets, x) > 0) && (x in counts ==> counts[x] == Holders(sets, x))
  }

  /** The distinct elements of a list (`sort` then `dedup`, or `collect` into a `BTreeSet`). */
  function Elements<T(!new)>(xs: seq<T>): (r: set<T>)
    ensures forall x :: x in r <==> x in xs
  {
    set x | x in xs
  }

  /** The distinct token strings of each file. */
  function TokenSets(mode: Mode, files: seq<string>): (r: seq<set<string>>)
    ensures |r| == |files|
  {
    if files == [] then []
    else TokenSets(mode, files[..|files| - 1]) + [Elements(TokenStrings(mode, files[|files| - 1]))]
  }

  /** The distinct windows of each file. */
  function WindowSets(mode: Mode, k: nat, stringToken: map<string, nat>, files: seq<string>): (r: seq<set<seq<nat>>>)
    ensures |r| == |files|
  {
    if files == [] then []
    else WindowSets(mode, k, stringToken, files[..|files| - 1])
         + [Elements(Windows(mode, k, stringToken, files[|files| - 1]))]
  }

  lemma TokenSetsSnoc(mode: Mode, files: seq<string>, i: nat)
    requires i < |files|
    ensures TokenSets(mode, files[..i + 1]) == TokenSets(mode, files[..i]) + [Elements(TokenStrings(mode, files[i]))]
  {
    assert files[..i + 1][..i] == files[..i];
  }

  lemma WindowSetsSnoc(mode: Mode, k: nat, stringToken: map<string, nat>, files: seq<string>, i: nat)
    requires i < |files|
    ensures WindowSets(mode, k, stringToken, files[..i + 1])
            == WindowSets(mode, k, stringToken, files[..i]) + [Elements(Windows(mode, k, stringToken, files[i]))]
  {
    assert files[..i + 1][..i] == files[..i];
  }

  lemma Whole<T>(xs: seq<T>)
    ensures xs[..|xs|] == xs
  {
  }

  /** The counters after the keys `done` of one more set have been counted. */
  ghost predicate TalliedWith<K(!new)>(r: map<K, nat>, sets: seq<set<K>>, done: set<K>) {
    forall x ::
      && (x in r <==> Holders(sets, x) > 0 || x in done)
      && (x in r ==> r[x] == Holders(sets, x) + (if x in done then 1 else 0))
  }

  lemma TalliedDone<K(!new)>(r: map<K, nat>, sets: seq<set<K>>, items: set<K>)
    requires TalliedWith(r, sets, items)
    ensures Tallied(r, sets + [items])
  {
    var all := sets + [items];
    assert all[..|all| - 1] == sets;
  }

  /** One increment per key of a deduplicated collection (src/tokenizer.rs:59-62, 82-85). */
  method TallySet<K(==,!new)>(counts: map<K, nat>, items: set<K>, ghost sets: seq<set<K>>) returns (r: map<K, nat>)
    requires Tallied(counts, sets)
    ensures Tallied(r, sets + [items])
  {
    r := counts;
    var rest := items;
    while rest != {}
      invariant rest <= items
      invariant TalliedWith(r, sets, items - rest)
      decreases |rest|
    {
      var x :| x in rest;
      r := r[x := Get(r, x) + 1];
      rest := rest - {x};
    }
    TalliedDone(r, sets, items);
  }

  /** The loops of src/tokenizer.rs:167-169 and 193-195: each key's value, or 0. */
  method Lookup<K(==)>(m: map<K, nat>, xs: seq<K>) returns (r: seq<nat>)
    ensures r == Cached(m, xs)
  {
    r := [];
    for i := 0 to |xs|
      invariant r == Cached(m, xs[..i])
    {
      assert xs[..i + 1][..i] == xs[..i];
      r := r + [if xs[i] in m then m[xs[i]] else 0];
    }
    Whole(xs);
  }

  /** The inner loop of src/tokenizer.rs:182-186: every window pushed in turn. */
  /** The loop of `ngrams_new`: the windows of lengths `j + 1 ..= k`, shortest first. */
  method CollectWindows(tokens: seq<nat>, j: nat, k: nat) returns (ret: seq<seq<nat>>)
    ensures ret == Sized(tokens, j + 1, k)
  {
    ret := [];
    if k < j {
      return;
    }
    for i := j to k
      invariant ret == Sized(tokens, j + 1, i)
    {
      var ws := Ngrams.WindowsOfSize(tokens, i + 1);
      SizedStep(tokens, j + 1, i);
      ret := PushWindows(ret, ws);
    }
  }

  method PushWindows(ret: seq<seq<nat>>, ws: seq<seq<nat>>) returns (r: seq<seq<nat>>)
    ensures r == ret + ws
  {
    r := ret;
    for m := 0 to |ws|
      invariant r == ret + ws[..m]
    {
      Ngrams.SnocPrefix(ret, ws, m);
      r := r + [ws[m]];
    }
    Ngrams.SnocPrefix(ret, ws, |ws|);
  }

  /** `Tokenizer`: the mode, the window bound and the two pairs of interning maps. */
  class Tokenizer {
    var mode: Mode
    var tokenCount: nat
    var tokenString: map<nat, string>
    var stringToken: map<string, nat>
    var k: nat
    var ngramCount: nat
    var ngramTokens: map<nat, seq<nat>>
    var tokensNgram: map<seq<nat>, nat>

    ghost predicate Valid()
      reads this
    {
      k > 0 && Interned(tokenCount, tokenString, stringToken) && Interned(ngramCount, ngramTokens, tokensNgram)
    }

    /**
     * `Tokenizer::new` (src/tokenizer.rs:34-107): a token string gets an id
     * exactly when more than one file contains it, and a window of ids
     * exactly when more than one file yields it once those ids are fixed.
     */
    constructor (k: nat, mode: Mode, files: seq<string>)
      requires k > 0 && |files| > 0
      ensures Valid() && this.k == k && this.mode == mode
      ensures forall s :: s in stringToken <==> Holders(TokenSets(mode, files), s) > 1
      ensures forall g :: g in tokensNgram <==> Holders(WindowSets(mode, k, stringToken, files), g) > 1
    {
      this.mode := mode;
      this.k := k;
      tokenCount, tokenString, stringToken := 0, map[], map[];
      ngramCount, ngramTokens, tokensNgram := 0, map[], map[];
      new;
      InternedEmpty<string>();
      InternedEmpty<seq<nat>>();
      var tokenCounts := CountTokens(files);
      InternTokens(tokenCounts);
      var ngramCounts := CountWindows(files);
      InternWindows(ngramCounts);
    }

    /** The first loop of `new` (src/tokenizer.rs:54-63): in how many files each token string occurs. */
    method CountTokens(files: seq<string>) returns (counts: map<string, nat>)
      ensures Tallied(counts, TokenSets(mode, files))
    {
      counts := map[];
      for i := 0 to |files|
        invariant Tallied(counts, TokenSets(mode, files[..i]))
      {
        var tokens := TokenizeNew(files[i]);
        counts := TallySet(counts, Elements(tokens), TokenSets(mode, files[..i]));
        TokenSetsSnoc(mode, files, i);
      }
      Whole(files);
    }

    /** The second loop of `new` (src/tokenizer.rs:67-75): the strings counted more than once get ids. */
    method InternTokens(counts: map<string, nat>)
      requires Valid()
      modifies this
      ensures Valid()
      ensures forall s :: s in stringToken <==> s in old(stringToken) || (s in counts && counts[s] > 1)
      ensures mode == old(mode) && k == old(k)
      ensures ngramCount == old(ngramCount) && ngramTokens == old(ngramTokens) && tokensNgram == old(tokensNgram)
    {
      var rest := counts.Keys;
      while rest != {}
        invariant rest <= counts.Keys
        invariant Valid()
        invariant forall s :: s in stringToken <==> s in old(stringToken) || (s in counts && s !in rest && counts[s] > 1)
        invariant mode == old(mode) && k == old(k)
        invariant ngramCount == old(ngramCount) && ngramTokens == old(ngramTokens) && tokensNgram == old(tokensNgram)
        decreases |rest|
      {
        var s :| s in rest;
        if counts[s] > 1 {
          var _ := MakeToken(s);
        }
        rest := rest - {s};
      }
    }

    /** The third loop of `new` (src/tokenizer.rs:79-86): in how many files each window occurs. */
    method CountWindows(files: seq<string>) returns (counts: map<seq<nat>, nat>)
      requires Valid()
      ensures Tallied(counts, WindowSets(mode, k, stringToken, files))
    {
      counts := map[];
      for i := 0 to |files|
        invariant Tallied(counts, WindowSets(mode, k, stringToken, files[..i]))
      {
        var windows := NgramsNew(files[i]);
        counts := TallySet(counts, Elements(windows), WindowSets(mode, k, stringToken, files[..i]));
        WindowSetsSnoc(mode, k, stringToken, files, i);
      }
      Whole(files);
    }

    /** The fourth loop of `new` (src/tokenizer.rs:90-98): the windows counted more than once get ids. */
    method InternWindows(counts: map<seq<nat>, nat>)
      requires Valid()
      modifies this
      ensures Valid()
      ensures forall g :: g in tokensNgram <==> g in old(tokensNgram) || (g in counts && counts[g] > 1)
      ensures mode == old(mode) && k == old(k)
      ensures tokenCount == old(tokenCount) && tokenString == old(tokenString) && stringToken == old(stringToken)
    {
      var rest := counts.Keys;
      while rest != {}
        invariant rest <= counts.Keys
        invariant Valid()
        invariant forall g :: g in tokensNgram <==> g in old(tokensNgram) || (g in counts && g !in rest && counts[g] > 1)
        invariant mode == old(mode) && k == old(k)
        invariant tokenCount == old(tokenCount) && tokenString == old(tokenString) && stringToken == old(stringToken)
        decreases |rest|
      {
        var g :| g in rest;
        if counts[g] > 1 {
          var _ := MakeNgram(g);
        }
        rest := rest - {g};
      }
    }

    /** `make_token` (src/tokenizer.rs:109-121): the existing id, or the next one. */
    method MakeToken(s: string) returns (t: nat)
      requires Valid()
      modifies this
      ensures Valid()
      ensures t >= 1 && s in stringToken && stringToken[s] == t && tokenString[t] == s
      ensures s in old(stringToken) ==> t == old(stringToken)[s] && tokenCount == old(tokenCount)
                                         && stringToken == old(stringToken) && tokenString == old(tokenString)
      ensures s !in old(stringToken) ==> t == old(tokenCount) + 1 && tokenCount == t
                                          && stringToken == old(stringToken)[s := t] && tokenString == old(tokenString)[t := s]
      ensures mode == old(mode) && k == old(k)
      ensures ngramCount == old(ngramCount) && ngramTokens == old(ngramTokens) && tokensNgram == old(tokensNgram)
    {
      if s in stringToken {
        return stringToken[s];
      }
      InternFresh(tokenCount, tokenString, stringToken, s);
      tokenCount := tokenCount + 1;
      t := tokenCount;
      stringToken := stringToken[s := t];
      tokenString := tokenString[t := s];
    }

    /** `make_ngram` (src/tokenizer.rs:123-135): the existing id, or the next one. */
    method MakeNgram(g: seq<nat>) returns (n: nat)
      requires Valid()
      modifies this
      ensures Valid()
      ensures n >= 1 && g in tokensNgram && tokensNgram[g] == n && ngramTokens[n] == g
      ensures g in old(tokensNgram) ==> n == old(tokensNgram)[g] && ngramCount == old(ngramCount)
                                         && tokensNgram == old(tokensNgram) && ngramTokens == old(ngramTokens)
      ensures g !in old(tokensNgram) ==> n == old(ngramCount) + 1 && ngramCount == n
                                          && tokensNgram == old(tokensNgram)[g := n] && ngramTokens == old(ngramTokens)[n := g]
      ensures mode == old(mode) && k == old(k)
      ensures tokenCount == old(tokenCount) && tokenString == old(tokenString) && stringToken == old(stringToken)
    {
      if g in tokensNgram {
        return tokensNgram[g];
      }
      InternFresh(ngramCount, ngramTokens, tokensNgram, g);
      ngramCount := ngramCount + 1;
      n := ngramCount;
      tokensNgram := tokensNgram[g := n];
      ngramTokens := ngramTokens[n := g];
    }

    /** `tokenize_new` (src/tokenizer.rs:137-163). */
    method TokenizeNew(path: string) returns (ret: seq<string>)
      ensures ret == TokenStrings(mode, path)
    {
      var p := Lower(path);
      ret := [];
      match mode
      case Words =>
        var pieces := Pieces(p);
        for i := 0 to |pieces|
          invariant ret == NonEmpty(pieces[..i])
        {
          assert pieces[..i + 1][..i] == pieces[..i];
          if pieces[i] != [] {
            ret := ret + [pieces[i]];
          }
        }
        Whole(pieces);
      case Characters =>
        for i := 0 to |p|
          invariant ret == CharTokens(p[..i])
        {
          assert p[..i + 1][..i] == p[..i];
          var c := p[i];
          if IsAlphanumeric(c) || c == '/' {
            ret := ret + [[c]];
          } else if ret == [] || ret[|ret| - 1] != " " {
            ret := ret + [" "];
          }
        }
        Whole(p);
    }

    /**
     * `tokenize_cached` (src/tokenizer.rs:165-171): each token string's id,
     * 0 exactly for strings without one, and every other id names its string.
     */
    method TokenizeCached(path: string) returns (ret: seq<nat>)
      requires Valid()
      ensures ret == Cached(stringToken, TokenStrings(mode, path))
      ensures forall i :: 0 <= i < |ret| ==> (ret[i] == 0 <==> TokenStrings(mode, path)[i] !in stringToken)
      ensures forall i :: 0 <= i < |ret| && ret[i] != 0 ==> tokenString[ret[i]] == TokenStrings(mode, path)[i]
    {
      var strs := TokenizeNew(path);
      ret := Lookup(stringToken, strs);
      CachedDecodes(tokenCount, tokenString, stringToken, strs);
    }

    /**
     * `ngrams_new` (src/tokenizer.rs:173-189): the windows of the cached ids
     * of lengths `1 ..= k` in Words mode and `2 ..= k` in Chars mode,
     * shortest first.
     */
    method NgramsNew(path: string) returns (ret: seq<seq<nat>>)
      requires Valid()
      ensures ret == Windows(mode, k, stringToken, path)
    {
      var tokens := TokenizeCached(path);
      var j := match mode case Words => 0 case Characters => 1;
      ret := CollectWindows(tokens, j, k);
    }

    /** `ngrams_cached` (src/tokenizer.rs:191-197): each window's id, 0 exactly for windows without one. */
    method NgramsCached(path: string) returns (ret: seq<nat>)
      requires Valid()
      ensures ret == Cached(tokensNgram, Windows(mode, k, stringToken, path))
      ensures forall i :: 0 <= i < |ret| ==> (ret[i] == 0 <==> Windows(mode, k, stringToken, path)[i] !in tokensNgram)
      ensures forall i :: 0 <= i < |ret| && ret[i] != 0 ==> ngramTokens[ret[i]] == Windows(mode, k, stringToken, path)[i]
    {
      var windows := NgramsNew(path);
      ret := Lookup(tokensNgram, windows);
      CachedDecodes(ngramCount, ngramTokens, tokensNgram, windows);
    }
  }
}
