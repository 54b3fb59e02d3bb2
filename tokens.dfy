/**
 * The token vocabulary and token sequences (src/tokens.rs).
 *
 * `TokenMap` is the string <-> id interning table, a class whose two maps the
 * methods extend in place. A token sequence (`Tokens`) is a value: its list
 * of ids and the Bloom filter of its mergeable adjacent pairs, which every
 * construction recomputes.
 */
module Tokens {
  import opened Wrappers
  import opened BloomFilter

  /** `Token(u32)`; ids are handed out from 0 upwards. */
  type Token = nat

  /** `Pair(Token, Token)`; the derived `Ord` is lexicographic. */
  datatype Pair = Pair(a: Token, b: Token)

  predicate PairLe(p: Pair, q: Pair) {
    p.a < q.a || (p.a == q.a && p.b <= q.b)
  }

  /** The text of the unknown token, id 0. */
  const Unknown: string := "<UNK>"

  /**
   * Stand-in for hashing a pair with AHasher: a fixed deterministic
   * function. No property below depends on which function it is.
   */
  function PairHash(p: Pair): Hash {
    (p.a + 2 * p.b) % 0x1_0000_0000_0000_0000
  }

  /** `IntoMask for Pair` (src/tokens.rs:12-16). */
  function PairMask(p: Pair): Bits {
    Mask(PairHash(p))
  }

  /** No character occurs twice. */
  predicate Distinct(cs: string) {
    forall i, j :: 0 <= i < j < |cs| ==> cs[i] != cs[j]
  }

  lemma DistinctPrefix(cs: string, k: nat)
    requires k <= |cs| && Distinct(cs)
    ensures Distinct(cs[..k])
  {
  }

  /**
   * While the special characters read so far are distinct and have taken
   * ids 1 .. k, the next distinct one is not yet in the table.
   */
  lemma SpecialFresh(strToken: map<string, Token>, tokenStr: map<Token, string>, sc: string, k: nat)
    requires forall s :: s in strToken ==> strToken[s] in tokenStr && tokenStr[strToken[s]] == s
    requires forall t :: t in tokenStr ==> t < |strToken|
    requires Unknown in strToken && strToken[Unknown] == 0
    requires k < |sc| && |strToken| == k + 1
    requires forall i :: 0 <= i < k ==> [sc[i]] in strToken && strToken[[sc[i]]] == i + 1
    requires Distinct(sc[..k + 1])
    ensures [sc[k]] !in strToken
  {
    forall s | s in strToken
      ensures s != [sc[k]]
    {
      var t := strToken[s];
      if t == 0 {
        assert tokenStr[0] == Unknown;
      } else {
        assert tokenStr[t] == [sc[t - 1]];
        assert sc[..k + 1][t - 1] != sc[..k + 1][k];
      }
    }
  }

  /** The one-character strings of `s`, character by character. */
  ghost function CharStrings(s: string): set<string> {
    if s == [] then {} else CharStrings(s[..|s| - 1]) + {[s[|s| - 1]]}
  }

  /** A one-character string is in `CharStrings(s)` exactly when `s` holds that character. */
  lemma {:induction false} CharStringsIff(s: string, x: string)
    ensures x in CharStrings(s) <==> exists j :: 0 <= j < |s| && x == [s[j]]
  {
    if s != [] {
      var n := |s| - 1;
      CharStringsIff(s[..n], x);
      if exists j :: 0 <= j < |s| && x == [s[j]] {
        var j :| 0 <= j < |s| && x == [s[j]];
        if j < n {
          assert s[..n][j] == s[j];
        }
      }
      if x in CharStrings(s[..n]) {
        var j :| 0 <= j < n && x == [s[..n][j]];
        assert s[j] == s[..n][j];
      }
    }
  }

  /** One more character adds its one-character string. */
  lemma CharStringsSnoc(s: string, i: nat)
    requires i < |s|
    ensures CharStrings(s[..i + 1]) == CharStrings(s[..i]) + {[s[i]]}
  {
    assert s[..i + 1][..i] == s[..i];
  }

  /** The strings a table holds are exactly those of `k`. */
  ghost predicate KeysAre(m: map<string, Token>, k: set<string>) {
    forall x :: x in m <==> x in k
  }

  /** Growth by `a` after growth to `k` is growth to `k + a`. */
  lemma KeysThen(m1: map<string, Token>, m2: map<string, Token>, k: set<string>, a: set<string>)
    requires KeysAre(m1, k) && KeysAre(m2, m1.Keys + a)
    ensures KeysAre(m2, k + a)
  {
  }

  /** Adding one string to a table adds it to the table's keys. */
  lemma KeysAdd(before: map<string, Token>, after: map<string, Token>, x: string, t: Token,
                k0: set<string>, a: set<string>, b: set<string>)
    requires KeysAre(before, k0 + a) && after == before[x := t] && b == a + {x}
    ensures KeysAre(after, k0 + b)
  {
  }

  /**
   * The loop of `TokenMap::new` after `k` special characters: they are
   * interned on top of the strings `keys0`, `special` records their ids,
   * and while they are distinct those ids are 1 .. k.
   */
  ghost predicate SpecialsUpTo(sc: string, k: nat, keys0: set<string>, st: map<string, Token>, special: seq<Token>) {
    && k <= |sc|
    && KeysAre(st, keys0 + CharStrings(sc[..k]))
    && |special| == k + 1
    && (forall i :: 0 <= i < k ==> [sc[i]] in st && special[i + 1] == st[[sc[i]]])
    && (Distinct(sc[..k]) ==> |st| == k + 1 && forall i :: 0 <= i < |special| ==> special[i] == i)
  }

  /** Interning the next special character moves the loop of `new` one step on. */
  lemma SpecialsStep(sc: string, k: nat, keys0: set<string>, st: map<string, Token>, special: seq<Token>, t: Token,
                     st2: map<string, Token>, special2: seq<Token>)
    requires k < |sc| && SpecialsUpTo(sc, k, keys0, st, special)
    requires Distinct(sc[..k + 1]) ==> [sc[k]] !in st
    requires t == if [sc[k]] in st then st[[sc[k]]] else |st|
    requires st2 == st[[sc[k]] := t] && special2 == special + [t]
    ensures SpecialsUpTo(sc, k + 1, keys0, st2, special2)
  {
    CharStringsSnoc(sc, k);
    KeysAdd(st, st2, [sc[k]], t, keys0, CharStrings(sc[..k]), CharStrings(sc[..k + 1]));
    forall i | 0 <= i < k + 1
      ensures [sc[i]] in st2 && special2[i + 1] == st2[[sc[i]]]
    {
      if i < k {
        assert special2[i + 1] == special[i + 1];
      }
    }
    if Distinct(sc[..k + 1]) {
      DistinctPrefix(sc[..k + 1], k);
      assert sc[..k + 1][..k] == sc[..k];
    }
  }

  class TokenMap {
    var strToken: map<string, Token>
    var tokenStr: map<Token, string>
    var special: seq<Token>

    /** The two maps are mutually inverse and the ids are exactly 0 .. size-1. */
    ghost predicate Valid()
      reads this
    {
      && (forall s :: s in strToken ==> strToken[s] in tokenStr && tokenStr[strToken[s]] == s)
      && (forall t :: t in tokenStr ==> tokenStr[t] in strToken && strToken[tokenStr[t]] == t)
      && (forall t :: t in tokenStr ==> t < |strToken|)
      && |tokenStr| == |strToken|
      && Unknown in strToken && strToken[Unknown] == 0
      && |special| > 0 && special[0] == 0
      && (forall i :: 0 <= i < |special| ==> special[i] < |strToken|)
    }

    function Size(): nat
      reads this
    {
      |strToken|
    }

    /** src/tokens.rs:127-146. */
    constructor (specialChars: string)
      ensures Valid()
      ensures |special| == |specialChars| + 1
      ensures forall i :: 0 <= i < |specialChars| ==>
                [specialChars[i]] in strToken && special[i + 1] == strToken[[specialChars[i]]]
      ensures Distinct(specialChars) ==> forall i :: 0 <= i < |special| ==> special[i] == i
      ensures KeysAre(strToken, {Unknown} + CharStrings(specialChars))
    {
      // The unknown token is created first and receives id 0.
      strToken := map[Unknown := 0];
      tokenStr := map[0 := Unknown];
      special := [0];
      new;
      AddSpecials(specialChars);
    }

    /** src/tokens.rs:139-143: the loop of `new` that interns each special character. */
    method AddSpecials(specialChars: string)
      requires Valid() && |special| == 1 && |strToken| == 1
      modifies this
      ensures Valid()
      ensures |special| == |specialChars| + 1
      ensures forall i :: 0 <= i < |specialChars| ==>
                [specialChars[i]] in strToken && special[i + 1] == strToken[[specialChars[i]]]
      ensures Distinct(specialChars) ==> forall i :: 0 <= i < |special| ==> special[i] == i
      ensures KeysAre(strToken, old(strToken).Keys + CharStrings(specialChars))
    {
      assert specialChars[..0] == [];
      for k := 0 to |specialChars|
        invariant Valid() && SpecialsUpTo(specialChars, k, old(strToken).Keys, strToken, special)
      {
        AddSpecialAt(specialChars, k, old(strToken).Keys);
      }
      assert specialChars[..|specialChars|] == specialChars;
    }

    /** One iteration of the loop of `new`: the next special character. */
    method AddSpecialAt(specialChars: string, k: nat, ghost keys0: set<string>)
      requires k < |specialChars| && Valid() && SpecialsUpTo(specialChars, k, keys0, strToken, special)
      modifies this
      ensures Valid() && SpecialsUpTo(specialChars, k + 1, keys0, strToken, special)
    {
      if Distinct(specialChars[..k + 1]) {
        DistinctPrefix(specialChars[..k + 1], k);
        assert specialChars[..k + 1][..k] == specialChars[..k];
        SpecialFresh(strToken, tokenStr, specialChars[..k + 1], k);
      }
      ghost var st, sp := strToken, special;
      var t := PushSpecial(specialChars[k]);
      SpecialsStep(specialChars, k, keys0, st, sp, t, strToken, special);
    }
    /** One step of the loop of src/tokens.rs:139-143: intern `c` and record its id as special. */
    method PushSpecial(c: char) returns (t: Token)
      requires Valid()
      modifies this
      ensures Valid()
      ensures t == if [c] in old(strToken) then old(strToken)[[c]] else old(|strToken|)
      ensures strToken == old(strToken)[[c] := t] && tokenStr == old(tokenStr)[t := [c]]
      ensures special == old(special) + [t]
    {
      t := GetOrCreateToken([c]);
      special := special + [t];
    }

    /** src/tokens.rs:148-150: the id of the last special token. */
    function LastSpecial(): Token
      reads this
      requires |special| > 0
    {
      special[|special| - 1]
    }

    /** src/tokens.rs:152-165: the new id is the current size; the string must be fresh. */
    method CreateToken(s: string) returns (t: Token)
      requires Valid()
      requires s !in strToken
      modifies this
      ensures Valid()
      ensures t == old(|strToken|)
      ensures strToken == old(strToken)[s := t]
      ensures tokenStr == old(tokenStr)[t := s]
      ensures special == old(special)
    {
      t := |strToken|;
      assert t !in tokenStr;
      strToken := strToken[s := t];
      tokenStr := tokenStr[t := s];
    }

    /** src/tokens.rs:167-173: a known string keeps its id and the map does not grow. */
    method GetOrCreateToken(s: string) returns (t: Token)
      requires Valid()
      modifies this
      ensures Valid()
      ensures t == if s in old(strToken) then old(strToken)[s] else old(|strToken|)
      ensures strToken == old(strToken)[s := t] && tokenStr == old(tokenStr)[t := s]
      ensures special == old(special)
    {
      if s in strToken {
        t := strToken[s];
      } else {
        t := CreateToken(s);
      }
    }

    /**
     * src/tokens.rs:175-182: a new token spelling `str(a) ++ str(b)`. The
     * source asserts that the spelling is fresh and panics otherwise; `None`
     * stands for that panic.
     */
    method Merge(p: Pair) returns (r: Option<Token>)
      requires Valid()
      requires p.a in tokenStr && p.b in tokenStr
      modifies this
      ensures Valid()
      ensures special == old(special)
      ensures var merged := old(tokenStr[p.a] + tokenStr[p.b]);
              if merged in old(strToken) then
                r.None? && strToken == old(strToken) && tokenStr == old(tokenStr)
              else
                && r == Some(old(|strToken|))
                && strToken == old(strToken)[merged := r.value]
                && tokenStr == old(tokenStr)[r.value := merged]
      ensures r.Some? ==> r.value !in old(tokenStr) && forall i :: 0 <= i < |special| ==> special[i] < r.value
      ensures r.Some? ==> forall t :: t in old(tokenStr) ==> t in tokenStr && tokenStr[t] == old(tokenStr)[t]
    {
      var merged := tokenStr[p.a] + tokenStr[p.b];
      if merged in strToken {
        r := None;
      } else {
        var t := CreateToken(merged);
        r := Some(t);
      }
    }

    /** src/tokens.rs:184-186: unseen strings map to the unknown token. */
    function GetToken(s: string): (t: Token)
      reads this
      ensures s in strToken ==> t == strToken[s]
      ensures s !in strToken ==> t == 0
    {
      if s in strToken then strToken[s] else 0
    }

    /** src/tokens.rs:188-190. */
    function GetStr(t: Token): (r: Option<string>)
      reads this
      ensures r.Some? <==> t in tokenStr
      ensures r.Some? ==> r.value == tokenStr[t]
    {
      if t in tokenStr then Some(tokenStr[t]) else None
    }

    /**
     * `get_str` and `get_token` undo each other on the table; an unknown
     * string looks up as `<UNK>`, and an unknown token has no text.
     */
    lemma LookupsInverse(t: Token, s: string)
      requires Valid()
      ensures t in tokenStr ==> GetStr(t).Some? && GetToken(GetStr(t).value) == t
      ensures t !in tokenStr ==> GetStr(t) == None
      ensures s in strToken ==> GetStr(GetToken(s)) == Some(s)
      ensures s !in strToken ==> GetStr(GetToken(s)) == Some(Unknown)
      ensures GetToken(s) == 0 <==> s !in strToken || s == Unknown
    {
      assert tokenStr[0] == Unknown;
    }
  }

  // ---------------------------------------------------------------------
  // Token sequences
  // ---------------------------------------------------------------------

  /** `Tokens`: a token list and the Bloom filter of its mergeable pairs. */
  datatype Tokens = Tokens(bloom: Bits, tokens: seq<Token>)

  /** The adjacent pair `(a, b)` occurs somewhere in `ts`. */
  ghost predicate Occurs(ts: seq<Token>, a: Token, b: Token) {
    exists i :: 0 <= i < |ts| - 1 && ts[i] == a && ts[i + 1] == b
  }

  /**
   * `Tokens::pairs` (src/tokens.rs:98-108): the adjacent pairs, left to
   * right, keeping only those whose two tokens are both above `last`, the
   * id of the last special token.
   */
  function Pairs(ts: seq<Token>, last: Token): seq<Pair> {
    if |ts| < 2 then []
    else (if ts[0] > last && ts[1] > last then [Pair(ts[0], ts[1])] else []) + Pairs(ts[1..], last)
  }

  lemma OccursCons(ts: seq<Token>, a: Token, b: Token)
    requires |ts| >= 2
    ensures Occurs(ts, a, b) <==> (ts[0] == a && ts[1] == b) || Occurs(ts[1..], a, b)
  {
    if Occurs(ts, a, b) && !(ts[0] == a && ts[1] == b) {
      var i :| 0 <= i < |ts| - 1 && ts[i] == a && ts[i + 1] == b;
      assert ts[1..][i - 1] == a && ts[1..][i] == b;
    }
    if Occurs(ts[1..], a, b) {
      var i :| 0 <= i < |ts[1..]| - 1 && ts[1..][i] == a && ts[1..][i + 1] == b;
      assert ts[i + 1] == a && ts[i + 2] == b;
    }
  }

  /** A pair is yielded exactly when it is adjacent in `ts` and neither token is special. */
  lemma {:induction false} PairsIff(ts: seq<Token>, last: Token, p: Pair)
    ensures p in Pairs(ts, last) <==> p.a > last && p.b > last && Occurs(ts, p.a, p.b)
  {
    if |ts| >= 2 {
      PairsIff(ts[1..], last, p);
      OccursCons(ts, p.a, p.b);
    }
  }

  function PairHashes(ps: seq<Pair>): (hs: seq<Hash>)
    ensures |hs| == |ps|
  {
    seq(|ps|, i requires 0 <= i < |ps| => PairHash(ps[i]))
  }

  /** The filter that `calc_bloom` computes: one bit per yielded pair. */
  function PairBloom(ts: seq<Token>, last: Token): Bits {
    BloomOf(PairHashes(Pairs(ts, last)))
  }

  /** The filter of `t` is the one computed from its current tokens. */
  predicate BloomCurrent(t: Tokens, last: Token) {
    t.bloom == PairBloom(t.tokens, last)
  }

  /** `Tokens::contains` (src/tokens.rs:86-88) on the element's mask. */
  predicate Contains(t: Tokens, m: Bits) {
    Covers(t.bloom, m)
  }

  /** No false negatives: every yielded pair is reported by `contains`. */
  lemma ContainsEveryPair(t: Tokens, last: Token, p: Pair)
    requires BloomCurrent(t, last)
    requires p in Pairs(t.tokens, last)
    ensures Contains(t, PairMask(p))
  {
    var ps := Pairs(t.tokens, last);
    var i :| 0 <= i < |ps| && ps[i] == p;
    assert PairHashes(ps)[i] == PairHash(p);
    BloomOfCovers(PairHashes(ps), PairHash(p));
  }

  lemma PairBloomStep(ps: seq<Pair>, i: nat)
    requires i < |ps|
    ensures BloomOf(PairHashes(ps[..i + 1])) == BloomOf(PairHashes(ps[..i])) + Mask(PairHash(ps[i]))
  {
    var hs := PairHashes(ps[..i + 1]);
    assert hs[..|hs| - 1] == PairHashes(ps[..i]);
  }

  /** src/tokens.rs:25-31: the filter of the pairs of `ts`, built on a fresh `Bloom`. */
  method CalcBloom(tm: TokenMap, ts: seq<Token>) returns (r: Tokens)
    requires tm.Valid()
    ensures r.tokens == ts
    ensures BloomCurrent(r, tm.LastSpecial())
  {
    var bloom := new Bloom();
    var ps := Pairs(ts, tm.LastSpecial());
    for i := 0 to |ps|
      invariant bloom.Valid()
      invariant bloom.bits == BloomOf(PairHashes(ps[..i]))
    {
      PairBloomStep(ps, i);
      bloom.Set(PairHash(ps[i]));
    }
    assert ps[..|ps|] == ps;
    r := Tokens(bloom.ToMask(), ts);
  }

  // ---------------------------------------------------------------------
  // Spelling
  // ---------------------------------------------------------------------

  /** Every id of `ts` has a spelling in `strs`. */
  predicate Known(strs: map<Token, string>, ts: seq<Token>) {
    forall i :: 0 <= i < |ts| ==> ts[i] in strs
  }

  /** The text a token sequence spells: its tokens' strings, concatenated. */
  function Decode(strs: map<Token, string>, ts: seq<Token>): string
    requires Known(strs, ts)
  {
    if ts == [] then "" else strs[ts[0]] + Decode(strs, ts[1..])
  }

  lemma {:induction false} DecodeAppend(strs: map<Token, string>, xs: seq<Token>, ys: seq<Token>)
    requires Known(strs, xs) && Known(strs, ys)
    ensures Known(strs, xs + ys)
    ensures Decode(strs, xs + ys) == Decode(strs, xs) + Decode(strs, ys)
  {
    if xs == [] {
      assert xs + ys == ys;
    } else {
      assert (xs + ys)[1..] == xs[1..] + ys;
      DecodeAppend(strs, xs[1..], ys);
    }
  }

  /** Adding spellings for new ids does not change what a known sequence spells. */
  lemma {:induction false} DecodeGrow(strs: map<Token, string>, more: map<Token, string>, ts: seq<Token>)
    requires Known(strs, ts)
    requires forall t :: t in strs ==> t in more && more[t] == strs[t]
    ensures Known(more, ts)
    ensures Decode(more, ts) == Decode(strs, ts)
  {
    if ts != [] {
      DecodeGrow(strs, more, ts[1..]);
    }
  }

  /** Appending a token newly spelt `[c]`, in a table that only grew, appends `c` to the spelling. */
  lemma DecodeSnoc(strs: map<Token, string>, more: map<Token, string>, ts: seq<Token>, t: Token, c: char)
    requires Known(strs, ts)
    requires forall x :: x in strs ==> x in more && more[x] == strs[x]
    requires t in more && more[t] == [c]
    ensures Known(more, ts + [t])
    ensures Decode(more, ts + [t]) == Decode(strs, ts) + [c]
  {
    DecodeGrow(strs, more, ts);
    assert Decode(more, [t]) == [c];
    DecodeAppend(more, ts, [t]);
  }

  // ---------------------------------------------------------------------
  // Construction from text
  // ---------------------------------------------------------------------

  /** Every character of `s` has an id. */
  predicate CharsKnown(strToken: map<string, Token>, s: string) {
    forall j :: 0 <= j < |s| ==> [s[j]] in strToken
  }

  /** The per-character ids that `from_str_or_unknown` assigns: 0 for unseen characters. */
  function CharIds(strToken: map<string, Token>, s: string): (r: seq<Token>)
    ensures |r| == |s|
  {
    seq(|s|, i requires 0 <= i < |s| => if [s[i]] in strToken then strToken[[s[i]]] else 0)
  }

  /**
   * src/tokens.rs:33-44: one token per character, interning characters not
   * seen before. The ids of strings already in the table do not change.
   */
  method FromStrAndCreate(s: string, tm: TokenMap) returns (r: Tokens)
    requires tm.Valid()
    modifies tm
    ensures tm.Valid()
    ensures tm.special == old(tm.special)
    ensures forall x :: x in old(tm.strToken) ==> x in tm.strToken && tm.strToken[x] == old(tm.strToken)[x]
    ensures forall t :: t in old(tm.tokenStr) ==> t in tm.tokenStr && tm.tokenStr[t] == old(tm.tokenStr)[t]
    ensures KeysAre(tm.strToken, old(tm.strToken).Keys + CharStrings(s))
    ensures CharsKnown(tm.strToken, s) && r.tokens == CharIds(tm.strToken, s)
    ensures Known(tm.tokenStr, r.tokens) && Decode(tm.tokenStr, r.tokens) == s
    ensures BloomCurrent(r, tm.LastSpecial())
  {
    var ts := CreateAll(s, tm);
    r := CalcBloom(tm, ts);
  }

  /** The loop of `from_str_and_create` (src/tokens.rs:37-41): one token per character. */
  method CreateAll(s: string, tm: TokenMap) returns (ts: seq<Token>)
    requires tm.Valid()
    modifies tm
    ensures tm.Valid()
    ensures tm.special == old(tm.special)
    ensures forall x :: x in old(tm.strToken) ==> x in tm.strToken && tm.strToken[x] == old(tm.strToken)[x]
    ensures forall t :: t in old(tm.tokenStr) ==> t in tm.tokenStr && tm.tokenStr[t] == old(tm.tokenStr)[t]
    ensures KeysAre(tm.strToken, old(tm.strToken).Keys + CharStrings(s))
    ensures CharsKnown(tm.strToken, s) && ts == CharIds(tm.strToken, s)
    ensures Known(tm.tokenStr, ts) && Decode(tm.tokenStr, ts) == s
  {
    ts := [];
    assert s[..0] == [];
    for i := 0 to |s|
      invariant tm.Valid() && tm.special == old(tm.special) && |ts| == i
      invariant Created(s, ts, tm.strToken, tm.tokenStr, old(tm.strToken), old(tm.tokenStr))
    {
      ghost var st, strs := tm.strToken, tm.tokenStr;
      var t := tm.GetOrCreateToken([s[i]]);
      CreatedStep(s, ts, t, st, strs, tm.strToken, tm.tokenStr, old(tm.strToken), old(tm.tokenStr));
      ts := ts + [t];
    }
    assert s[..|s|] == s;
  }

  /**
   * The loop of `from_str_and_create` after `|ts|` characters: the table
   * `st`/`strs` grew from `st0`/`strs0` by exactly those characters, and
   * `ts` holds their tokens.
   */
  ghost predicate Created(s: string, ts: seq<Token>, st: map<string, Token>, strs: map<Token, string>,
                          st0: map<string, Token>, strs0: map<Token, string>)
  {
    && |ts| <= |s|
    && KeysAre(st, st0.Keys + CharStrings(s[..|ts|]))
    && Grows(st0, st) && Grows(strs0, strs)
    && IdsOf(s, ts, st)
    && Known(strs, ts) && Decode(strs, ts) == s[..|ts|]
  }

  /** `m` keeps every entry of `m0`. */
  ghost predicate Grows<K, V>(m0: map<K, V>, m: map<K, V>) {
    forall k :: k in m0 ==> k in m && m[k] == m0[k]
  }

  lemma GrowsThen<K, V>(m0: map<K, V>, m1: map<K, V>, m2: map<K, V>)
    requires Grows(m0, m1) && Grows(m1, m2)
    ensures Grows(m0, m2)
  {
  }

  /** `ts` holds the ids that `st` gives the first `|ts|` characters of `s`. */
  ghost predicate IdsOf(s: string, ts: seq<Token>, st: map<string, Token>) {
    |ts| <= |s| && forall j :: 0 <= j < |ts| ==> [s[j]] in st && ts[j] == st[[s[j]]]
  }

  /** The id found or created for the next character extends `IdsOf`. */
  lemma IdsOfStep(s: string, ts: seq<Token>, t: Token, st: map<string, Token>, st2: map<string, Token>)
    requires |ts| < |s| && IdsOf(s, ts, st)
    requires t == if [s[|ts|]] in st then st[[s[|ts|]]] else |st|
    requires st2 == st[[s[|ts|]] := t]
    ensures IdsOf(s, ts + [t], st2)
  {
    var i := |ts|;
    forall j | 0 <= j < i + 1
      ensures [s[j]] in st2 && (ts + [t])[j] == st2[[s[j]]]
    {
      if j < i && [s[j]] == [s[i]] {
        assert ts[j] == st[[s[i]]];
      }
    }
  }

  /** One step of `from_str_and_create`: the next character's token, found or created. */
  lemma CreatedStep(s: string, ts: seq<Token>, t: Token, st: map<string, Token>, strs: map<Token, string>,
                    st2: map<string, Token>, strs2: map<Token, string>,
                    st0: map<string, Token>, strs0: map<Token, string>)
    requires |ts| < |s| && Created(s, ts, st, strs, st0, strs0)
    requires t == if [s[|ts|]] in st then st[[s[|ts|]]] else |st|
    requires st2 == st[[s[|ts|]] := t] && strs2 == strs[t := [s[|ts|]]]
    requires Grows(strs, strs2)
    ensures Created(s, ts + [t], st2, strs2, st0, strs0)
  {
    var i := |ts|;
    assert |ts + [t]| == i + 1;
    DecodeSnoc(strs, strs2, ts, t, s[i]);
    TakeSnoc(s, i);
    CharKeysStep(s, i, st, st2, t, st0.Keys);
    IdsOfStep(s, ts, t, st, st2);
    assert Grows(st, st2);
    GrowsThen(st0, st, st2);
    GrowsThen(strs0, strs, strs2);
  }

  lemma TakeSnoc<T>(s: seq<T>, i: nat)
    requires i < |s|
    ensures s[..i + 1] == s[..i] + [s[i]]
  {
  }

  /** Interning the character at `i` adds its one-character string to the keys. */
  lemma CharKeysStep(s: string, i: nat, st: map<string, Token>, st2: map<string, Token>, t: Token, k0: set<string>)
    requires i < |s| && KeysAre(st, k0 + CharStrings(s[..i])) && st2 == st[[s[i]] := t]
    ensures KeysAre(st2, k0 + CharStrings(s[..i + 1]))
  {
    CharStringsSnoc(s, i);
    KeysAdd(st, st2, [s[i]], t, k0, CharStrings(s[..i]), CharStrings(s[..i + 1]));
  }

  /**
   * src/tokens.rs:46-57: one token per character, the unknown token 0 for
   * characters the table has never seen.
   */
  method FromStrOrUnknown(s: string, tm: TokenMap) returns (r: Tokens)
    requires tm.Valid()
    ensures r.tokens == CharIds(tm.strToken, s)
    ensures forall i :: 0 <= i < |s| ==> (r.tokens[i] == 0 <==> [s[i]] !in tm.strToken)
    ensures Known(tm.tokenStr, r.tokens)
    ensures (forall i :: 0 <= i < |s| ==> [s[i]] in tm.strToken) ==> Decode(tm.tokenStr, r.tokens) == s
    ensures BloomCurrent(r, tm.LastSpecial())
  {
    var ts: seq<Token> := [];
    for i := 0 to |s|
      invariant |ts| == i
      invariant forall j :: 0 <= j < i ==> ts[j] == tm.GetToken([s[j]])
      invariant forall j :: 0 <= j < i ==> (ts[j] == 0 <==> [s[j]] !in tm.strToken)
      invariant Known(tm.tokenStr, ts)
      invariant (forall j :: 0 <= j < i ==> [s[j]] in tm.strToken) ==> Decode(tm.tokenStr, ts) == s[..i]
    {
      var t := tm.GetToken([s[i]]);
      assert [s[i]] in tm.strToken ==> tm.tokenStr[t] == [s[i]] && t != 0;
      if forall j :: 0 <= j < i + 1 ==> [s[j]] in tm.strToken {
        DecodeAppend(tm.tokenStr, ts, [t]);
        assert s[..i + 1] == s[..i] + [s[i]];
      }
      ts := ts + [t];
    }
    assert s[..|s|] == s;
    assert ts == CharIds(tm.strToken, s);
    r := CalcBloom(tm, ts);
  }

  // ---------------------------------------------------------------------
  // Replacing a pair
  // ---------------------------------------------------------------------

  /**
   * The rewrite `from_replace` performs: scanning left to right, each
   * adjacent `(p.a, p.b)` not overlapping an earlier rewrite becomes `m`.
   */
  function Replace(ts: seq<Token>, p: Pair, m: Token): seq<Token> {
    if ts == [] then []
    else if |ts| >= 2 && ts[0] == p.a && ts[1] == p.b then [m] + Replace(ts[2..], p, m)
    else [ts[0]] + Replace(ts[1..], p, m)
  }

  /** How many rewrites `Replace` makes. */
  function Replacements(ts: seq<Token>, p: Pair): nat {
    if ts == [] then 0
    else if |ts| >= 2 && ts[0] == p.a && ts[1] == p.b then 1 + Replacements(ts[2..], p)
    else Replacements(ts[1..], p)
  }

  /** Each rewrite shortens the sequence by one. */
  lemma {:induction false} ReplaceLength(ts: seq<Token>, p: Pair, m: Token)
    ensures |Replace(ts, p, m)| == |ts| - Replacements(ts, p)
  {
    if ts != [] {
      if |ts| >= 2 && ts[0] == p.a && ts[1] == p.b {
        ReplaceLength(ts[2..], p, m);
      } else {
        ReplaceLength(ts[1..], p, m);
      }
    }
  }

  /** At least one rewrite happens exactly when the pair occurs. */
  lemma {:induction false} ReplacementsOccurs(ts: seq<Token>, p: Pair)
    ensures Replacements(ts, p) > 0 <==> Occurs(ts, p.a, p.b)
  {
    if |ts| >= 2 {
      OccursCons(ts, p.a, p.b);
      if ts[0] == p.a && ts[1] == p.b {
      } else {
        ReplacementsOccurs(ts[1..], p);
      }
    } else if |ts| == 1 {
      assert Replacements(ts[1..], p) == 0;
    }
  }

  /** Without an occurrence of the pair nothing is rewritten. */
  lemma {:induction false} ReplaceAbsent(ts: seq<Token>, p: Pair, m: Token)
    requires !Occurs(ts, p.a, p.b)
    ensures Replace(ts, p, m) == ts
  {
    if |ts| >= 2 {
      OccursCons(ts, p.a, p.b);
      ReplaceAbsent(ts[1..], p, m);
    } else if |ts| == 1 {
      assert Replace(ts[1..], p, m) == [];
    }
  }

  /**
   * When `m` spells `str(a) ++ str(b)`, rewriting does not change the text
   * the sequence spells.
   */
  lemma {:induction false} ReplaceDecode(strs: map<Token, string>, ts: seq<Token>, p: Pair, m: Token)
    requires Known(strs, ts) && m in strs
    requires p.a in strs && p.b in strs && strs[m] == strs[p.a] + strs[p.b]
    ensures Known(strs, Replace(ts, p, m))
    ensures Decode(strs, Replace(ts, p, m)) == Decode(strs, ts)
  {
    if ts != [] {
      if |ts| >= 2 && ts[0] == p.a && ts[1] == p.b {
        var rest := Replace(ts[2..], p, m);
        ReplaceDecode(strs, ts[2..], p, m);
        assert ([m] + rest)[1..] == rest;
        assert ts[1..][1..] == ts[2..];
      } else {
        var rest := Replace(ts[1..], p, m);
        ReplaceDecode(strs, ts[1..], p, m);
        assert ([ts[0]] + rest)[1..] == rest;
      }
    }
  }

  /** The count of `t` in a non-empty sequence: its head, then its tail. */
  lemma CountCons(ts: seq<Token>, t: Token)
    requires ts != []
    ensures multiset(ts)[t] == (if ts[0] == t then 1 else 0) + multiset(ts[1..])[t]
  {
    assert ts == [ts[0]] + ts[1..];
  }

  /**
   * When the pair and the merged token are all above `last`, rewriting
   * keeps every special token: each occurs as often as before.
   */
  lemma {:induction false} ReplaceKeepsSpecials(ts: seq<Token>, p: Pair, m: Token, last: Token, t: Token)
    requires p.a > last && p.b > last && m > last && t <= last
    ensures multiset(Replace(ts, p, m))[t] == multiset(ts)[t]
  {
    if ts != [] {
      var r := Replace(ts, p, m);
      CountCons(ts, t);
      CountCons(r, t);
      if |ts| >= 2 && ts[0] == p.a && ts[1] == p.b {
        ReplaceKeepsSpecials(ts[2..], p, m, last, t);
        CountCons(ts[1..], t);
        assert r[1..] == Replace(ts[2..], p, m);
        assert ts[1..][1..] == ts[2..];
      } else {
        ReplaceKeepsSpecials(ts[1..], p, m, last, t);
        assert r[1..] == Replace(ts[1..], p, m);
      }
    }
  }

  /**
   * Skipping a sequence whose filter does not report a non-special pair is
   * sound: rewriting it would change nothing.
   */
  lemma SkipIsSound(t: Tokens, last: Token, p: Pair, m: Token)
    requires BloomCurrent(t, last)
    requires p.a > last && p.b > last
    requires !Contains(t, PairMask(p))
    ensures Replace(t.tokens, p, m) == t.tokens
  {
    if Occurs(t.tokens, p.a, p.b) {
      PairsIff(t.tokens, last, p);
      ContainsEveryPair(t, last, p);
    }
    ReplaceAbsent(t.tokens, p, m);
  }

  /**
   * src/tokens.rs:59-84: the rewrite of `from` with the pair replaced by
   * `merged`, and whether anything changed.
   */
  method FromReplace(tm: TokenMap, from: Tokens, p: Pair, merged: Token) returns (r: Tokens, changed: bool)
    requires tm.Valid()
    ensures r.tokens == Replace(from.tokens, p, merged)
    ensures BloomCurrent(r, tm.LastSpecial())
    ensures changed <==> Occurs(from.tokens, p.a, p.b)
    ensures |r.tokens| == |from.tokens| - Replacements(from.tokens, p)
  {
    var out := ReplaceLoop(from.tokens, p, merged);
    r := CalcBloom(tm, out);
    ReplaceLength(from.tokens, p, merged);
    ReplacementsOccurs(from.tokens, p);
    changed := |out| != |from.tokens|;
  }

  /** The scan of src/tokens.rs:63-80: left to right, each `a b` becomes `merged`. */
  method ReplaceLoop(ts: seq<Token>, p: Pair, merged: Token) returns (out: seq<Token>)
    ensures out == Replace(ts, p, merged)
  {
    out := [];
    var i := 0;
    var len := |ts|;
    while i < len
      invariant 0 <= i <= len
      invariant out + Replace(ts[i..], p, merged) == Replace(ts, p, merged)
    {
      var tokenA := ts[i];
      if p.a == tokenA && i + 1 < len {
        var tokenB := ts[i + 1];
        if p.b == tokenB {
          ReplaceAt(ts, i, p, merged);
          ghost var rest := Replace(ts[i + 2..], p, merged);
          assert out + ([merged] + rest) == (out + [merged]) + rest;
          out := out + [merged];
          i := i + 2;
          continue;
        }
      }
      ReplaceAt(ts, i, p, merged);
      ghost var rest := Replace(ts[i + 1..], p, merged);
      assert out + ([tokenA] + rest) == (out + [tokenA]) + rest;
      out := out + [tokenA];
      i := i + 1;
    }
    assert ts[len..] == [];
  }

  /** `Replace` on a suffix: one rewrite or one kept token, then the rest. */
  lemma ReplaceAt(ts: seq<Token>, i: nat, p: Pair, m: Token)
    requires i < |ts|
    ensures i + 1 < |ts| && ts[i] == p.a && ts[i + 1] == p.b ==>
              Replace(ts[i..], p, m) == [m] + Replace(ts[i + 2..], p, m)
    ensures !(i + 1 < |ts| && ts[i] == p.a && ts[i + 1] == p.b) ==>
              Replace(ts[i..], p, m) == [ts[i]] + Replace(ts[i + 1..], p, m)
  {
    assert ts[i..][1..] == ts[i + 1..];
    if i + 1 < |ts| {
      assert ts[i..][2..] == ts[i + 2..];
    }
  }

}
