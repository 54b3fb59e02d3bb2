/**
 * Path text normalisation (src/normalize.rs).
 *
 * `Normalize` is the source's single pass over the lowered characters,
 * pushing to and popping from the output buffer; `Normalized` is the same
 * pass written as a function (`Scan` over the prefix, then the final trailing
 * pop), so that lemmas can speak about it. The shape of every output is
 * captured by `WellFormed`, and idempotence follows from it.
 */
module Normalize {
  import opened Chars

  /** One iteration of the loop body at src/normalize.rs:14-29. */
  function Step(ret: string, c: char): string {
    if c == Separator then
      (if |ret| > 0 && (ret[|ret| - 1] == ' ' || ret[|ret| - 1] == Separator)
       then ret[..|ret| - 1] else ret) + [c]
    else if IsAlphanumeric(c) then
      ret + [c]
    else if c != '\'' && |ret| > 0 && ret[|ret| - 1] != ' ' && ret[|ret| - 1] != Separator then
      ret + [' ']
    else
      ret
  }

  /** The buffer after the loop has consumed all of `s`. */
  function Scan(s: string): string {
    if s == [] then [] else Step(Scan(s[..|s| - 1]), s[|s| - 1])
  }

  /** The trailing pop at src/normalize.rs:30-32. */
  function TrimTrailingSpace(r: string): string {
    if |r| > 0 && r[|r| - 1] == ' ' then r[..|r| - 1] else r
  }

  function Normalized(s: string): string {
    TrimTrailingSpace(Scan(Lower(s)))
  }

  /** Characters that may appear in a normalised path. */
  predicate Allowed(c: char) {
    (IsAlphanumeric(c) && ToLower(c) == c) || c == ' ' || c == Separator
  }

  predicate Mark(c: char) {
    c == ' ' || c == Separator
  }

  /**
   * The buffer's shape during the loop: only allowed characters, no leading
   * space, and no two marks (space or separator) side by side. A trailing
   * space is still possible.
   */
  predicate Draft(r: string) {
    && (forall i :: 0 <= i < |r| ==> Allowed(r[i]))
    && (|r| > 0 ==> r[0] != ' ')
    && (forall i :: 0 < i < |r| ==> !(Mark(r[i - 1]) && Mark(r[i])))
  }

  /** The shape of every output of `normalize`: a draft without a trailing space. */
  predicate WellFormed(r: string) {
    Draft(r) && (|r| > 0 ==> r[|r| - 1] != ' ')
  }

  lemma StepDraft(ret: string, c: char)
    requires Draft(ret)
    requires ToLower(c) == c
    ensures Draft(Step(ret, c))
  {
    if c == Separator && |ret| > 0 && (ret[|ret| - 1] == ' ' || ret[|ret| - 1] == Separator) {
      var p := ret[..|ret| - 1];
      assert Draft(p);
      if |p| > 0 {
        assert !Mark(p[|p| - 1]);
      }
    }
  }

  lemma {:induction false} ScanDraft(s: string)
    requires forall i :: 0 <= i < |s| ==> ToLower(s[i]) == s[i]
    ensures Draft(Scan(s))
  {
    if s != [] {
      var p := s[..|s| - 1];
      ScanDraft(p);
      StepDraft(Scan(p), s[|s| - 1]);
    }
  }

  /** Every output of `normalize` is well formed (src/normalize.rs:12-32). */
  lemma NormalizedWellFormed(s: string)
    ensures WellFormed(Normalized(s))
  {
    var l := Lower(s);
    forall i | 0 <= i < |l| ensures ToLower(l[i]) == l[i] { }
    ScanDraft(l);
  }

  /** On a well-formed string the loop rebuilds its input prefix by prefix. */
  lemma {:induction false} ScanWellFormed(t: string, k: nat)
    requires WellFormed(t)
    requires k <= |t|
    ensures Scan(t[..k]) == t[..k]
  {
    if k > 0 {
      ScanWellFormed(t, k - 1);
      assert t[..k][..k - 1] == t[..k - 1];
      var c := t[k - 1];
      if c == ' ' {
        assert k - 1 > 0;
        assert !Mark(t[k - 2]);
      }
      if c == Separator && k > 1 {
        assert !Mark(t[k - 2]);
      }
      assert t[..k] == t[..k - 1] + [c];
    }
  }

  /** A well-formed string is a fixed point of `normalize`. */
  lemma WellFormedFixed(t: string)
    requires WellFormed(t)
    ensures Normalized(t) == t
  {
    forall i | 0 <= i < |t| ensures ToLower(t[i]) == t[i] {
      assert Allowed(t[i]);
    }
    assert Lower(t) == t;
    ScanWellFormed(t, |t|);
    assert t[..|t|] == t;
  }

  /** Normalising twice is normalising once. */
  lemma Idempotent(s: string)
    ensures Normalized(Normalized(s)) == Normalized(s)
  {
    NormalizedWellFormed(s);
    WellFormedFixed(Normalized(s));
  }

  /** The alphanumeric characters of `s`, in order. */
  function Alnums(s: string): string {
    if s == [] then []
    else Alnums(s[..|s| - 1]) + (if IsAlphanumeric(s[|s| - 1]) then [s[|s| - 1]] else [])
  }

  lemma {:induction false} ScanAlnums(s: string)
    ensures Alnums(Scan(s)) == Alnums(s)
  {
    if s != [] {
      var p := s[..|s| - 1];
      var c := s[|s| - 1];
      var r := Scan(p);
      ScanAlnums(p);
      if c == Separator && |r| > 0 && (r[|r| - 1] == ' ' || r[|r| - 1] == Separator) {
        assert r[..|r| - 1] + [r[|r| - 1]] == r;
        assert Alnums(r) == Alnums(r[..|r| - 1]);
        assert (r[..|r| - 1] + [c])[..|r| - 1] == r[..|r| - 1];
      } else if c == Separator {
        assert (r + [c])[..|r|] == r;
      } else if IsAlphanumeric(c) {
        assert (r + [c])[..|r|] == r;
      } else if c != '\'' && |r| > 0 && r[|r| - 1] != ' ' && r[|r| - 1] != Separator {
        assert (r + [' '])[..|r|] == r;
      }
    }
  }

  /**
   * Alphanumerics survive normalisation, lowered and in their input order;
   * everything else that survives is a space or a separator.
   */
  lemma KeepsAlnums(s: string)
    ensures Alnums(Normalized(s)) == Alnums(Lower(s))
  {
    var r := Scan(Lower(s));
    ScanAlnums(Lower(s));
    if |r| > 0 && r[|r| - 1] == ' ' {
      assert r[..|r| - 1] + [r[|r| - 1]] == r;
    }
  }

  /** The input with every apostrophe removed. */
  function DropApostrophes(s: string): string {
    if s == [] then []
    else DropApostrophes(s[..|s| - 1]) + (if s[|s| - 1] == '\'' then [] else [s[|s| - 1]])
  }

  lemma {:induction false} ScanDropsApostrophes(s: string)
    ensures Scan(s) == Scan(DropApostrophes(s))
  {
    if s != [] {
      var p := s[..|s| - 1];
      ScanDropsApostrophes(p);
      var d := DropApostrophes(p);
      var c := s[|s| - 1];
      if c == '\'' {
        assert DropApostrophes(s) == d + [] == d;
        assert Scan(s) == Step(Scan(p), c) == Scan(p);
      } else {
        assert DropApostrophes(s) == d + [c];
        assert (d + [c])[..|d|] == d;
        assert Scan(d + [c]) == Step(Scan(d), c);
      }
    }
  }

  lemma {:induction false} LowerDropApostrophes(s: string)
    ensures Lower(DropApostrophes(s)) == DropApostrophes(Lower(s))
  {
    if s != [] {
      var p := s[..|s| - 1];
      LowerDropApostrophes(p);
      assert Lower(s)[..|s| - 1] == Lower(p);
      var d := DropApostrophes(p);
      if s[|s| - 1] != '\'' {
        assert (d + [s[|s| - 1]])[..|d|] == d;
      }
    }
  }

  /**
   * Apostrophes vanish without leaving a space: normalising `s` is normalising
   * `s` with its apostrophes removed (so "couldn't" becomes "couldnt").
   */
  lemma ApostrophesDropped(s: string)
    ensures Normalized(s) == Normalized(DropApostrophes(s))
  {
    LowerDropApostrophes(s);
    ScanDropsApostrophes(Lower(s));
  }

  /** Empty and one-letter inputs (src/normalize.rs:53-57). */
  lemma ExampleMinimal()
    ensures Normalized("") == ""
    ensures Normalized("a") == "a"
  {
    assert Lower("a") == "a";
  }

  /** Only punctuation normalises to nothing (src/normalize.rs:77). */
  lemma ExampleOnlyMarks()
    ensures Normalized("***") == ""
  {
    assert Lower("***") == "***";
    assert "*"[..0] == "" && "**"[..1] == "*" && "***"[..2] == "**";
    assert Scan("*") == Step("", '*') == "";
    assert Scan("**") == Step("", '*') == "";
    assert Scan("***") == Step("", '*') == "";
  }

  /** A run of separators collapses to one (src/normalize.rs:78). */
  lemma ExampleOnlySeparators()
    ensures Normalized("///") == "/"
  {
    assert Lower("///") == "///";
    assert "/"[..0] == "" && "//"[..1] == "/" && "///"[..2] == "//";
    assert Scan("/") == Step("", '/') == "/";
    assert Scan("//") == Step("/", '/') == "/";
    assert Scan("///") == Step("/", '/') == "/";
  }

  /** An apostrophe leaves no space (src/normalize.rs:102-105). */
  lemma ExampleApostrophe()
    ensures Normalized("it's") == "its"
  {
    assert Lower("it's") == "it's";
    assert ScanFrom("", "it's") == "its";
    NormalizedFromStart("it's");
  }

  // The longer unit tests are checked chunk by chunk: `ScanFrom` runs the
  // loop on from a given buffer, and `ScanFromAppend` glues the chunks.

  /** The buffer after the loop, started from `ret`, has consumed `s`. */
  function ScanFrom(ret: string, s: string): string
    decreases |s|
  {
    if s == [] then ret else ScanFrom(Step(ret, s[0]), s[1..])
  }

  lemma {:induction false} ScanThenScanFrom(a: string, b: string)
    ensures ScanFrom(Scan(a), b) == Scan(a + b)
    decreases |b|
  {
    if b == [] {
      assert a + b == a;
    } else {
      var a' := a + [b[0]];
      assert a'[..|a|] == a;
      assert Scan(a') == Step(Scan(a), b[0]);
      assert a' + b[1..] == a + b;
      ScanThenScanFrom(a', b[1..]);
    }
  }

  lemma {:induction false} ScanFromAppend(r: string, x: string, y: string)
    ensures ScanFrom(r, x + y) == ScanFrom(ScanFrom(r, x), y)
    decreases |x|
  {
    if x == [] {
      assert x + y == y;
    } else {
      assert (x + y)[1..] == x[1..] + y;
      ScanFromAppend(Step(r, x[0]), x[1..], y);
    }
  }

  lemma NormalizedFromStart(s: string)
    ensures Normalized(s) == TrimTrailingSpace(ScanFrom([], Lower(s)))
  {
    ScanThenScanFrom([], Lower(s));
    assert [] + Lower(s) == Lower(s);
  }

  // The longer unit tests are checked chunk by chunk, each chunk in a lemma
  // of its own (a separator that pops the buffer is a chunk by itself), and
  // the chunks are glued with `ScanFromAppend`.

  lemma ChunkSpecial1() ensures ScanFrom("", "/path/to") == "/path/to" {}
  lemma ChunkSpecial2() ensures ScanFrom("/path/to", "/special") == "/path/to/special" {}
  lemma ChunkSpecial3() ensures ScanFrom("/path/to/special", "@file!") == "/path/to/special file " {}
  lemma ChunkSpecial4() ensures ScanFrom("/path/to/special file ", ".mp4") == "/path/to/special file mp4" {}

  lemma ScanSpecial() ensures ScanFrom("", "/path/to/special@file!.mp4") == "/path/to/special file mp4" {
    assert "/path/to/special@file!.mp4" == "/path/to" + ("/special" + ("@file!" + ".mp4"));
    ScanFromAppend("", "/path/to", "/special" + ("@file!" + ".mp4"));
    ScanFromAppend("/path/to", "/special", "@file!" + ".mp4");
    ScanFromAppend("/path/to/special", "@file!", ".mp4");
    ChunkSpecial1(); ChunkSpecial2(); ChunkSpecial3(); ChunkSpecial4();
  }
  lemma LowerSpecial() ensures Lower("/path/to/special@file!.mp4") == "/path/to/special@file!.mp4" {}

  lemma ChunkDoubled1() ensures ScanFrom("", "/path/") == "/path/" {}
  lemma ChunkDoubled2() ensures ScanFrom("/path/", "/") == "/path/" {
    assert Step("/path/", '/') == "/path/";
  }
  lemma ChunkDoubled3() ensures ScanFrom("/path/", "to/") == "/path/to/" {}
  lemma ChunkDoubled4() ensures ScanFrom("/path/to/", "/") == "/path/to/" {
    assert Step("/path/to/", '/') == "/path/to/";
  }
  lemma ChunkDoubled6() ensures ScanFrom("/path/to/", "file.mp4") == "/path/to/file mp4" {}

  lemma ScanDoubled() ensures ScanFrom("", "/path//to///file.mp4") == "/path/to/file mp4" {
    assert "/path//to///file.mp4" == "/path/" + ("/" + ("to/" + ("/" + ("/" + "file.mp4"))));
    ScanFromAppend("", "/path/", "/" + ("to/" + ("/" + ("/" + "file.mp4"))));
    ScanFromAppend("/path/", "/", "to/" + ("/" + ("/" + "file.mp4")));
    ScanFromAppend("/path/", "to/", "/" + ("/" + "file.mp4"));
    ScanFromAppend("/path/to/", "/", "/" + "file.mp4");
    ScanFromAppend("/path/to/", "/", "file.mp4");
    ChunkDoubled1(); ChunkDoubled2(); ChunkDoubled3(); ChunkDoubled4(); ChunkDoubled6();
  }
  lemma LowerDoubled() ensures Lower("/path//to///file.mp4") == "/path//to///file.mp4" {}

  lemma ChunkBangs3() ensures ScanFrom("/path/to/special", "!!!file") == "/path/to/special file" {}
  lemma ChunkBangs4() ensures ScanFrom("/path/to/special file", ".mp4") == "/path/to/special file mp4" {}

  lemma ScanBangs() ensures ScanFrom("", "/path/to/special!!!file.mp4") == "/path/to/special file mp4" {
    assert "/path/to/special!!!file.mp4" == "/path/to" + ("/special" + ("!!!file" + ".mp4"));
    ScanFromAppend("", "/path/to", "/special" + ("!!!file" + ".mp4"));
    ScanFromAppend("/path/to", "/special", "!!!file" + ".mp4");
    ScanFromAppend("/path/to/special", "!!!file", ".mp4");
    ChunkSpecial1(); ChunkSpecial2(); ChunkBangs3(); ChunkBangs4();
  }
  lemma LowerBangs() ensures Lower("/path/to/special!!!file.mp4") == "/path/to/special!!!file.mp4" {}

  lemma ChunkFolder3() ensures ScanFrom("/path/to/special", "_folder") == "/path/to/special folder" {}
  lemma ChunkFolder4() ensures ScanFrom("/path/to/special folder", "!!!") == "/path/to/special folder " {}
  lemma ChunkFolder5() ensures ScanFrom("/path/to/special folder ", "/") == "/path/to/special folder/" {
    assert Step("/path/to/special folder ", '/') == "/path/to/special folder/";
  }
  lemma ChunkFolder6() ensures ScanFrom("/path/to/special folder/", "file.mp4") == "/path/to/special folder/file mp4" {}

  lemma ScanFolder() ensures ScanFrom("", "/path/to/special_folder!!!/file.mp4") == "/path/to/special folder/file mp4" {
    assert "/path/to/special_folder!!!/file.mp4" == "/path/to" + ("/special" + ("_folder" + ("!!!" + ("/" + "file.mp4"))));
    ScanFromAppend("", "/path/to", "/special" + ("_folder" + ("!!!" + ("/" + "file.mp4"))));
    ScanFromAppend("/path/to", "/special", "_folder" + ("!!!" + ("/" + "file.mp4")));
    ScanFromAppend("/path/to/special", "_folder", "!!!" + ("/" + "file.mp4"));
    ScanFromAppend("/path/to/special folder", "!!!", "/" + "file.mp4");
    ScanFromAppend("/path/to/special folder ", "/", "file.mp4");
    ChunkSpecial1(); ChunkSpecial2(); ChunkFolder3(); ChunkFolder4(); ChunkFolder5(); ChunkFolder6();
  }
  lemma LowerFolder() ensures Lower("/path/to/special_folder!!!/file.mp4") == "/path/to/special_folder!!!/file.mp4" {}

  lemma ChunkMixedCase2() ensures ScanFrom("/path/to", "/file") == "/path/to/file" {}
  lemma ChunkMixedCase3() ensures ScanFrom("/path/to/file", ".mp4") == "/path/to/file mp4" {}

  lemma ScanMixedCase() ensures ScanFrom("", "/path/to/file.mp4") == "/path/to/file mp4" {
    assert "/path/to/file.mp4" == "/path/to" + ("/file" + ".mp4");
    ScanFromAppend("", "/path/to", "/file" + ".mp4");
    ScanFromAppend("/path/to", "/file", ".mp4");
    ChunkSpecial1(); ChunkMixedCase2(); ChunkMixedCase3();
  }
  lemma LowerMixedCase() ensures Lower("/Path/To/FILE.Mp4") == "/path/to/file.mp4" {}

  lemma ChunkExtension3() ensures ScanFrom("/path/to/file", ".ext") == "/path/to/file ext" {}
  lemma ChunkExtension4() ensures ScanFrom("/path/to/file ext", "ension") == "/path/to/file extension" {}

  lemma ScanExtension() ensures ScanFrom("", "/path/to/file.extension") == "/path/to/file extension" {
    assert "/path/to/file.extension" == "/path/to" + ("/file" + (".ext" + "ension"));
    ScanFromAppend("", "/path/to", "/file" + (".ext" + "ension"));
    ScanFromAppend("/path/to", "/file", ".ext" + "ension");
    ScanFromAppend("/path/to/file", ".ext", "ension");
    ChunkSpecial1(); ChunkMixedCase2(); ChunkExtension3(); ChunkExtension4();
  }
  lemma LowerExtension() ensures Lower("/path/to/file.extension") == "/path/to/file.extension" {}

  lemma ChunkApostrophes0() ensures ScanFrom("", "could") == "could" {}
  lemma ChunkApostrophes1() ensures ScanFrom("", "couldn't") == "couldnt" {
    assert "couldn't" == "could" + "n't";
    ScanFromAppend("", "could", "n't");
    ChunkApostrophes0();
    assert ScanFrom("could", "n't") == "couldnt";
  }
  lemma ChunkApostrophes2() ensures ScanFrom("couldnt", " don't") == "couldnt dont" {}
  lemma ChunkApostrophes3() ensures ScanFrom("couldnt dont", " it's") == "couldnt dont its" {}
  lemma ChunkApostrophes4() ensures ScanFrom("couldnt dont its", ".mp4") == "couldnt dont its mp4" {}

  lemma ScanApostrophes() ensures ScanFrom("", "couldn't don't it's.mp4") == "couldnt dont its mp4" {
    assert "couldn't don't it's.mp4" == "couldn't" + (" don't" + (" it's" + ".mp4"));
    ScanFromAppend("", "couldn't", " don't" + (" it's" + ".mp4"));
    ScanFromAppend("couldnt", " don't", " it's" + ".mp4");
    ScanFromAppend("couldnt dont", " it's", ".mp4");
    ChunkApostrophes1(); ChunkApostrophes2(); ChunkApostrophes3(); ChunkApostrophes4();
  }
  lemma LowerApostrophes() ensures Lower("couldn't don't it's.mp4") == "couldn't don't it's.mp4" {}

  /**
   * The remaining unit tests of src/normalize.rs: special characters (43-44),
   * runs of separators and of marks (61, 63-64), a folder ending in marks
   * (84-85), mixed case (91), an extension (97-98) and apostrophes (104).
   */
  lemma ExampleTests()
    ensures Normalized("/path/to/special@file!.mp4") == "/path/to/special file mp4"
    ensures Normalized("/path//to///file.mp4") == "/path/to/file mp4"
    ensures Normalized("/path/to/special!!!file.mp4") == "/path/to/special file mp4"
    ensures Normalized("/path/to/special_folder!!!/file.mp4") == "/path/to/special folder/file mp4"
    ensures Normalized("/Path/To/FILE.Mp4") == "/path/to/file mp4"
    ensures Normalized("/path/to/file.extension") == "/path/to/file extension"
    ensures Normalized("couldn't don't it's.mp4") == "couldnt dont its mp4"
  {
    LowerSpecial(); ScanSpecial(); NormalizedFromStart("/path/to/special@file!.mp4");
    LowerDoubled(); ScanDoubled(); NormalizedFromStart("/path//to///file.mp4");
    LowerBangs(); ScanBangs(); NormalizedFromStart("/path/to/special!!!file.mp4");
    LowerFolder(); ScanFolder(); NormalizedFromStart("/path/to/special_folder!!!/file.mp4");
    LowerMixedCase(); ScanMixedCase(); NormalizedFromStart("/Path/To/FILE.Mp4");
    LowerExtension(); ScanExtension(); NormalizedFromStart("/path/to/file.extension");
    LowerApostrophes(); ScanApostrophes(); NormalizedFromStart("couldn't don't it's.mp4");
  }

  /** `w.repeat(n)`. */
  function Repeat(w: string, n: nat): (r: string)
    ensures |r| == n * |w|
  {
    if n == 0 then [] else Repeat(w, n - 1) + w
  }

  /** Lower-case letters and digits only. */
  predicate Word(w: string) {
    forall i :: 0 <= i < |w| ==> IsAlphanumeric(w[i]) && ToLower(w[i]) == w[i]
  }

  /** A run of lower-case letters and digits is copied onto the buffer as it is. */
  lemma {:induction false} ScanFromWord(r: string, w: string)
    requires Word(w)
    ensures ScanFrom(r, w) == r + w
    decreases |w|
  {
    if w != [] {
      ScanFromWord(r + [w[0]], w[1..]);
      assert r + [w[0]] + w[1..] == r + w;
    }
  }

  lemma ScanFromOne(r: string, c: char)
    ensures ScanFrom(r, [c]) == Step(r, c)
  {
    assert [c][1..] == [];
  }

  /** After a letter or a digit (or at the start), a separator and a word are copied as they are. */
  lemma ScanFromSlashWord(r: string, w: string)
    requires r == [] || IsAlphanumeric(r[|r| - 1])
    requires Word(w)
    ensures ScanFrom(r, [Separator] + w) == r + [Separator] + w
  {
    ScanFromOne(r, Separator);
    ScanFromWord(r + [Separator], w);
    ScanFromAppend(r, [Separator], w);
  }

  /** After a letter or a digit, "name.ext" becomes "name ext". */
  lemma ScanFromDotted(r: string, name: string, ext: string)
    requires Word(name) && Word(ext) && |name| > 0
    ensures ScanFrom(r, name + ['.'] + ext) == r + name + [' '] + ext
  {
    ScanFromWord(r, name);
    assert (r + name)[|r + name| - 1] == name[|name| - 1];
    ScanFromOne(r + name, '.');
    ScanFromWord(r + name + [' '], ext);
    ScanFromAppend(r + name, ['.'], ext);
    ScanFromAppend(r, name, ['.'] + ext);
    assert name + ['.'] + ext == name + (['.'] + ext);
  }

  lemma {:induction false} ScanRepeat(w: string, n: nat)
    requires Word(w) && |w| > 0
    ensures ScanFrom([], Repeat([Separator] + w, n)) == Repeat([Separator] + w, n)
  {
    if n > 0 {
      var r := Repeat([Separator] + w, n - 1);
      ScanRepeat(w, n - 1);
      ScanFromAppend([], r, [Separator] + w);
      if n - 1 > 0 {
        assert r[|r| - 1] == w[|w| - 1];
      }
      ScanFromSlashWord(r, w);
    }
  }

  /** Text that lower-casing leaves as it is. */
  predicate IsLower(s: string) {
    forall i :: 0 <= i < |s| ==> ToLower(s[i]) == s[i]
  }

  lemma LowerOfLower(s: string)
    requires IsLower(s)
    ensures Lower(s) == s
  {
  }

  lemma IsLowerAppend(a: string, b: string)
    requires IsLower(a) && IsLower(b)
    ensures IsLower(a + b)
  {
    forall i | 0 <= i < |a + b| ensures ToLower((a + b)[i]) == (a + b)[i] {
      if i >= |a| {
        assert (a + b)[i] == b[i - |a|];
      }
    }
  }

  lemma {:induction false} RepeatIsLower(w: string, n: nat)
    requires IsLower(w)
    ensures IsLower(Repeat(w, n))
  {
    if n > 0 {
      RepeatIsLower(w, n - 1);
      IsLowerAppend(Repeat(w, n - 1), w);
    }
  }

  /** The long-path input is already in lower case. */
  lemma LowerLongPath(w: string, n: nat, name: string, ext: string)
    requires Word(w) && Word(name) && Word(ext)
    ensures Lower(Repeat([Separator] + w, n) + name + ['.'] + ext) == Repeat([Separator] + w, n) + name + ['.'] + ext
  {
    var r := Repeat([Separator] + w, n);
    assert IsLower([Separator]) && IsLower(['.']);
    IsLowerAppend([Separator], w);
    RepeatIsLower([Separator] + w, n);
    IsLowerAppend(r, name);
    IsLowerAppend(r + name, ['.']);
    IsLowerAppend(r + name + ['.'], ext);
    LowerOfLower(r + name + ['.'] + ext);
  }

  /** After a prefix that the loop copies unchanged, "name.ext" becomes "name ext". */
  lemma ScanThenDotted(r: string, name: string, ext: string)
    requires ScanFrom([], r) == r
    requires Word(name) && |name| > 0 && Word(ext)
    ensures ScanFrom([], r + name + ['.'] + ext) == r + name + [' '] + ext
  {
    var x := name + ['.'] + ext;
    ScanFromAppend([], r, x);
    ScanFromDotted(r, name, ext);
    assert r + x == r + name + ['.'] + ext;
  }

  /**
   * The test at src/normalize.rs:68-73, for any number of repetitions: a
   * separated word repeated, then "name.ext", keeps the repetitions and
   * spaces the extension.
   */
  lemma {:induction false} LongPath(w: string, n: nat, name: string, ext: string)
    requires Word(w) && |w| > 0 && Word(name) && |name| > 0 && Word(ext) && |ext| > 0
    ensures Normalized(Repeat([Separator] + w, n) + name + ['.'] + ext)
            == Repeat([Separator] + w, n) + name + [' '] + ext
  {
    var s := Repeat([Separator] + w, n) + name + ['.'] + ext;
    var t := Repeat([Separator] + w, n) + name + [' '] + ext;
    LowerLongPath(w, n, name, ext);
    NormalizedFromStart(s);
    ScanRepeat(w, n);
    ScanThenDotted(Repeat([Separator] + w, n), name, ext);
    assert t[|t| - 1] == ext[|ext| - 1];
  }

  lemma ExampleLongPath()
    ensures Normalized(Repeat("/path", 100) + "file.mp4") == Repeat("/path", 100) + "file mp4"
  {
    LongPath("path", 100, "file", "mp4");
    assert [Separator] + "path" == "/path";
    assert "file" + ['.'] + "mp4" == "file.mp4";
    assert "file" + [' '] + "mp4" == "file mp4";
    assert Repeat("/path", 100) + "file" + ['.'] + "mp4" == Repeat("/path", 100) + "file.mp4";
    assert Repeat("/path", 100) + "file" + [' '] + "mp4" == Repeat("/path", 100) + "file mp4";
  }

  /** src/normalize.rs:11-34, the loop itself. */
  method Normalize(file: string) returns (ret: string)
    ensures ret == Normalized(file)
    ensures WellFormed(ret)
  {
    var lower := Lower(file);
    ret := [];
    var i := 0;
    while i < |lower|
      invariant 0 <= i <= |lower|
      invariant ret == Scan(lower[..i])
    {
      var c := lower[i];
      if c == Separator {
        if |ret| > 0 && (ret[|ret| - 1] == ' ' || ret[|ret| - 1] == Separator) {
          ret := ret[..|ret| - 1];
        }
        ret := ret + [c];
      } else if IsAlphanumeric(c) {
        ret := ret + [c];
      } else if c != '\'' && |ret| > 0 && ret[|ret| - 1] != ' ' && ret[|ret| - 1] != Separator {
        ret := ret + [' '];
      }
      assert lower[..i + 1][..i] == lower[..i];
      i := i + 1;
    }
    assert lower[..i] == lower;
    if |ret| > 0 && ret[|ret| - 1] == ' ' {
      ret := ret[..|ret| - 1];
    }
    NormalizedWellFormed(file);
  }
}
