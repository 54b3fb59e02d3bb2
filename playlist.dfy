/**
 * The decision log (src/playlist.rs): an extended-M3U file whose first line
 * is the `#EXTM3U` header, whose `#NEGATIVE:` lines are negative decisions
 * and whose plain lines are positive ones, each a path written relative to
 * the file's own directory. The file is modelled as the sequence of lines
 * `BufRead::lines` yields; the working directory and whether the file
 * exists are parameters.
 */
module Playlist {
  import opened Wrappers
  import opened Chars
  import opened Paths

  const Header: string := "#EXTM3U"
  const NegativePrefix: string := "#NEGATIVE:"

  /** `PlaylistEntry`; the shared destructor `path` is `PlaylistEntry::path`. */
  datatype Entry = Positive(path: AbsPath) | Negative(path: AbsPath)

  /**
   * Why `open` gives up: an empty file, a first line that is not the header,
   * or a playlist path with no parent (where the source's `unwrap` panics).
   */
  datatype Error = EmptyFile | MissingHeader | NoParent

  // ---------------------------------------------------------------------
  // `str::trim` and `str::starts_with`

  /** `char::is_whitespace`: the Unicode White_Space property. */
  predicate IsWhitespace(c: char) {
    || ('\t' <= c <= '\r') || c == ' ' || c == '\U{0085}' || c == '\U{00A0}'
    || c == '\U{1680}' || ('\U{2000}' <= c <= '\U{200A}') || c == '\U{2028}'
    || c == '\U{2029}' || c == '\U{202F}' || c == '\U{205F}' || c == '\U{3000}'
  }

  /** Where the whitespace run starting at `i` ends. */
  function Leading(s: string, i: nat): (k: nat)
    requires i <= |s|
    ensures i <= k <= |s| && (k == |s| || !IsWhitespace(s[k]))
    decreases |s| - i
  {
    if i < |s| && IsWhitespace(s[i]) then Leading(s, i + 1) else i
  }

  /** Where the whitespace run ending at `j` starts. */
  function Trailing(s: string, j: nat): (k: nat)
    requires j <= |s|
    ensures k <= j && (k == 0 || !IsWhitespace(s[k - 1]))
  {
    if j > 0 && IsWhitespace(s[j - 1]) then Trailing(s, j - 1) else j
  }

  function TrimStart(s: string): (r: string)
    ensures |r| <= |s| && r == s[|s| - |r|..]
    ensures r == [] || !IsWhitespace(r[0])
  {
    s[Leading(s, 0)..]
  }

  function TrimEnd(s: string): (r: string)
    ensures |r| <= |s| && r == s[..|r|]
    ensures r == [] || !IsWhitespace(r[|r| - 1])
  {
    s[..Trailing(s, |s|)]
  }

  lemma {:induction false} LeadingSpaces(s: string, i: nat)
    requires i <= |s|
    ensures forall j :: i <= j < Leading(s, i) ==> IsWhitespace(s[j])
    decreases |s| - i
  {
    if i < |s| && IsWhitespace(s[i]) {
      LeadingSpaces(s, i + 1);
    }
  }

  lemma {:induction false} TrailingSpaces(s: string, j: nat)
    requires j <= |s|
    ensures forall i :: Trailing(s, j) <= i < j ==> IsWhitespace(s[i])
  {
    if j > 0 && IsWhitespace(s[j - 1]) {
      TrailingSpaces(s, j - 1);
    }
  }

  /** Only whitespace goes: every character `TrimStart` drops is whitespace. */
  lemma TrimStartDrops(s: string)
    ensures forall i :: 0 <= i < |s| - |TrimStart(s)| ==> IsWhitespace(s[i])
  {
    LeadingSpaces(s, 0);
  }

  /** Only whitespace goes: every character `TrimEnd` drops is whitespace. */
  lemma TrimEndDrops(s: string)
    ensures forall i :: |TrimEnd(s)| <= i < |s| ==> IsWhitespace(s[i])
  {
    TrailingSpaces(s, |s|);
  }

  /** `str::trim`: whitespace off both ends. */
  function Trim(s: string): (r: string)
    ensures r == [] || (!IsWhitespace(r[0]) && !IsWhitespace(r[|r| - 1]))
  {
    TrimEnd(TrimStart(s))
  }

  /** Trimming leaves a text alone exactly when neither end is whitespace. */
  lemma TrimFixes(s: string)
    ensures Trim(s) == s <==> s == [] || (!IsWhitespace(s[0]) && !IsWhitespace(s[|s| - 1]))
  {
  }

  predicate StartsWith(s: string, prefix: string) {
    |prefix| <= |s| && s[..|prefix|] == prefix
  }

  // ---------------------------------------------------------------------
  // Reading the file (src/playlist.rs:97-116)

  /** What one line after the header contributes, read against the playlist's directory. */
  function LineEntry(root: Path, line: string): (r: seq<Entry>)
    requires IsAbsolute(root)
    ensures |r| <= 1
  {
    if StartsWith(line, NegativePrefix) then
      [Negative(ReadPath(root, Trim(line[|NegativePrefix|..])))]
    else if StartsWith(line, "#") then
      []
    else
      [Positive(ReadPath(root, Trim(line)))]
  }

  /** The path a line's text names: joined onto the playlist's directory, then normalised. */
  function ReadPath(root: Path, text: string): AbsPath
    requires IsAbsolute(root)
  {
    FromAbsPath(Join(root, Parse(text)))
  }

  /**
   * A line holds an entry exactly when it is a `#NEGATIVE:` line or no
   * comment at all, and the entry is Negative exactly for the former.
   */
  lemma LineShape(root: Path, line: string)
    requires IsAbsolute(root)
    ensures |LineEntry(root, line)| == 1 <==> StartsWith(line, NegativePrefix) || !StartsWith(line, "#")
    ensures LineEntry(root, line) != [] ==> (LineEntry(root, line)[0].Negative? <==> StartsWith(line, NegativePrefix))
  {
  }

  /** The entries of the lines after the header, in file order. */
  function Parsed(root: Path, lines: seq<string>): (r: seq<Entry>)
    requires IsAbsolute(root)
    ensures |r| <= |lines|
  {
    if lines == [] then []
    else Parsed(root, lines[..|lines| - 1]) + LineEntry(root, lines[|lines| - 1])
  }

  /** Entries keep the order of their lines: reading two runs of lines reads each in turn. */
  lemma {:induction false} ParsedAppend(root: Path, a: seq<string>, b: seq<string>)
    requires IsAbsolute(root)
    ensures Parsed(root, a + b) == Parsed(root, a) + Parsed(root, b)
  {
    if b == [] {
      assert a + b == a;
    } else {
      ParsedAppend(root, a, b[..|b| - 1]);
      ParsedAppendStep(root, a, b);
    }
  }

  lemma ParsedAppendStep(root: Path, a: seq<string>, b: seq<string>)
    requires IsAbsolute(root) && b != []
    requires Parsed(root, a + b[..|b| - 1]) == Parsed(root, a) + Parsed(root, b[..|b| - 1])
    ensures Parsed(root, a + b) == Parsed(root, a) + Parsed(root, b)
  {
    var b', last := b[..|b| - 1], b[|b| - 1];
    LastOff(a, b);
    ParsedSnoc(root, a + b', last);
    ParsedSnoc(root, b', last);
    SnocAssoc(Parsed(root, a + b'), Parsed(root, a), Parsed(root, b'), LineEntry(root, last));
  }

  lemma SnocAssoc<T>(whole: seq<T>, x: seq<T>, y: seq<T>, z: seq<T>)
    requires whole == x + y
    ensures whole + z == x + (y + z)
  {
  }




  lemma LastOff<T>(a: seq<T>, b: seq<T>)
    requires b != []
    ensures b == b[..|b| - 1] + [b[|b| - 1]]
    ensures a + b == (a + b[..|b| - 1]) + [b[|b| - 1]]
  {
  }

  lemma ReadStep(root: Path, lines: seq<string>, i: nat)
    requires IsAbsolute(root) && 1 <= i < |lines|
    ensures Parsed(root, lines[1..i + 1]) == Parsed(root, lines[1..i]) + LineEntry(root, lines[i])
  {
    assert lines[1..i + 1] == lines[1..i] + [lines[i]];
    ParsedSnoc(root, lines[1..i], lines[i]);
  }

  /** The lines open with the header and the entries are exactly what the lines after it read as. */
  ghost predicate Synced(root: Path, lines: seq<string>, entries: seq<Entry>) {
    IsAbsolute(root) && |lines| > 0 && Trim(lines[0]) == Header && entries == Parsed(root, lines[1..])
  }

  lemma Added(root: Path, lines: seq<string>, entries: seq<Entry>, line: string, e: Entry)
    requires Synced(root, lines, entries) && LineEntry(root, line) == [e]
    ensures Synced(root, lines + [line], entries + [e])
  {
    TailSnoc(lines, line);
    ParsedSnoc(root, lines[1..], line);
  }

  lemma TailSnoc<T>(s: seq<T>, x: T)
    requires |s| > 0
    ensures (s + [x])[0] == s[0] && (s + [x])[1..] == s[1..] + [x]
  {
  }

  lemma WholeTail<T>(s: seq<T>)
    requires |s| > 0
    ensures s[1..|s|] == s[1..]
  {
  }

  lemma ParsedSnoc(root: Path, lines: seq<string>, line: string)
    requires IsAbsolute(root)
    ensures Parsed(root, lines + [line]) == Parsed(root, lines) + LineEntry(root, line)
  {
    var s := lines + [line];
    assert s[..|s| - 1] == lines && s[|s| - 1] == line;
  }

  /** Every entry read from the file is a normalised absolute path with proper names. */
  lemma {:induction false} ParsedCanonical(root: Path, lines: seq<string>)
    requires Canonical(root)
    ensures forall e :: e in Parsed(root, lines) ==> Canonical(e.path.path)
  {
    if lines != [] {
      ParsedCanonical(root, lines[..|lines| - 1]);
      LineEntryCanonical(root, lines[|lines| - 1]);
    }
  }

  lemma LineEntryCanonical(root: Path, line: string)
    requires Canonical(root)
    ensures forall e :: e in LineEntry(root, line) ==> Canonical(e.path.path)
  {
    if StartsWith(line, NegativePrefix) {
      var t := Trim(line[|NegativePrefix|..]);
      TextCanonical(root, t);
      assert LineEntry(root, line) == [Negative(ReadPath(root, t))];
    } else if !StartsWith(line, "#") {
      TextCanonical(root, Trim(line));
      assert LineEntry(root, line) == [Positive(ReadPath(root, Trim(line)))];
    } else {
      assert LineEntry(root, line) == [];
    }
  }

  lemma TextCanonical(root: Path, text: string)
    requires Canonical(root)
    ensures Canonical(ReadPath(root, text).path)
  {
    ParseComponents(text);
    JoinComponents(root, Parse(text));
  }

  // ---------------------------------------------------------------------
  // Opening (src/playlist.rs:59-120)

  /** The playlist's absolute location: the path itself, or the path joined onto the working directory. */
  function Located(file: Path, cwd: Path): (full: Path)
    requires IsAbsolute(cwd)
    ensures IsAbsolute(full)
    ensures IsAbsolute(file) ==> full == file
    ensures !IsAbsolute(file) ==> |cwd| <= |full| && full[..|cwd|] == cwd
  {
    if IsAbsolute(file) then file
    else cwd + (if |file| > 0 && file[0] == CurDir then file[1..] else file)
  }

  lemma LocatedComponents(file: Path, cwd: Path)
    requires Components(file)
    requires IsAbsolute(cwd) && Components(cwd)
    ensures RootFirst(Located(file, cwd)) && ProperNames(Located(file, cwd))
  {
    if !IsAbsolute(file) {
      var rel := if |file| > 0 && file[0] == CurDir then file[1..] else file;
      var full := cwd + rel;
      assert forall c :: c in rel ==> c in file;
      forall i | 0 < i < |full| ensures full[i] != RootDir {
        if i >= |cwd| {
          assert full[i] == rel[i - |cwd|];
        }
      }
      assert forall c :: c in full ==> c in cwd || c in rel;
    }
  }

  /** `Path::parent` of an absolute component list: none for the root alone. */
  function Parent(full: Path): (r: Option<Path>)
    requires IsAbsolute(full) && RootFirst(full)
    ensures r.None? <==> full == [RootDir]
    ensures r.Some? ==> IsAbsolute(r.value) && r.value + [full[|full| - 1]] == full
  {
    if |full| == 1 then None else Some(full[..|full| - 1])
  }

  /** A located playlist and its directory both normalise to canonical paths. */
  lemma ParentCanonical(full: Path)
    requires IsAbsolute(full) && RootFirst(full) && ProperNames(full) && full != [RootDir]
    ensures Canonical(FromAbsPath(full).path)
    ensures Canonical(FromAbsPath(Parent(full).value).path)
  {
    var parent := Parent(full).value;
    assert forall i :: 0 <= i < |parent| ==> parent[i] == full[i];
    assert forall c :: c in parent ==> c in full;
  }

  /**
   * What `open` finds in the file: a missing file is created holding the
   * header alone; an existing one must start with the header.
   */
  function Loaded(root: Path, existing: Option<seq<string>>): (r: Result<(seq<string>, seq<Entry>), Error>)
    requires IsAbsolute(root)
    ensures r == Failure(EmptyFile) <==> existing == Some([])
    ensures r == Failure(MissingHeader) <==> existing.Some? && existing.value != [] && Trim(existing.value[0]) != Header
    ensures existing.None? ==> r == Success(([Header], []))
    ensures r.Success? ==> Synced(root, r.value.0, r.value.1)
  {
    match existing
    case None => Success(([Header], []))
    case Some(lines) =>
      if lines == [] then Failure(EmptyFile)
      else if Trim(lines[0]) != Header then Failure(MissingHeader)
      else Success((lines, Parsed(root, lines[1..])))
  }

  /** Reopening the lines of a synchronised playlist gives back its entries. */
  lemma Reopen(root: Path, lines: seq<string>, entries: seq<Entry>)
    requires Synced(root, lines, entries)
    ensures Loaded(root, Some(lines)) == Success((lines, entries))
  {
  }

  // ---------------------------------------------------------------------
  // Writing lines (src/playlist.rs:124-142)

  /** The text `add_positive` writes for a path: its display relative to the playlist's directory, as is. */
  function RawText(root: Path, a: AbsPath): string
    requires IsNormalAbsolute(root) && Canonical(a.path)
  {
    ToText(a, RelativeTo(root))
  }

  /** What `add_positive` or `add_negative` writes ahead of the newline for an entry. */
  function LineFor(root: Path, e: Entry): string
    requires IsNormalAbsolute(root) && Canonical(e.path.path)
  {
    match e
    case Positive(a) => RawText(root, a)
    case Negative(a) => NegativePrefix + RawText(root, a)
  }

  /** The pieces of a text between its newlines. */
  function Pieces(t: string): (r: seq<string>)
    ensures |r| > 0
    ensures forall i :: 0 <= i < |r| ==> '\n' !in r[i]
    ensures '\n' !in t ==> r == [t]
    ensures |r| > 1 <==> '\n' in t
  {
    if t == [] then [""]
    else
      var rest := Pieces(t[1..]);
      if t[0] == '\n' then [""] + rest
      else
        assert '\n' !in t ==> rest == [t[1..]] && [t[0]] + t[1..] == t;
        [[t[0]] + rest[0]] + rest[1..]
  }

  /** Pieces put back together with a newline between each two. */
  function Rejoined(pieces: seq<string>): string
    requires |pieces| > 0
  {
    if |pieces| == 1 then pieces[0] else pieces[0] + ['\n'] + Rejoined(pieces[1..])
  }

  /** Cutting a text at its newlines loses nothing. */
  lemma {:induction false} PiecesRejoin(t: string)
    ensures Rejoined(Pieces(t)) == t
  {
    if t != [] {
      var rest := Pieces(t[1..]);
      PiecesRejoin(t[1..]);
      if t[0] == '\n' {
        assert Pieces(t) == [""] + rest && ([""] + rest)[1..] == rest;
      } else if |rest| > 1 {
        var r := Pieces(t);
        assert r == [[t[0]] + rest[0]] + rest[1..] && r[1..] == rest[1..];
        assert Rejoined(rest) == rest[0] + ['\n'] + Rejoined(rest[1..]);
      }
    }
  }

  /** A line as `BufRead::lines` hands it over: without the carriage return of a CRLF ending. */
  function DropCr(s: string): string {
    if s != [] && s[|s| - 1] == '\r' then s[..|s| - 1] else s
  }

  /** The lines a later `open` reads back from a text written with `writeln!`. */
  function FileLines(t: string): (r: seq<string>)
    ensures |r| > 0
    ensures forall i :: 0 <= i < |r| ==> '\n' !in r[i]
  {
    var pieces := Pieces(t);
    seq(|pieces|, i requires 0 <= i < |pieces| => DropCr(pieces[i]))
  }

  /** A text without a newline, not ending in a carriage return, is read back as one line. */
  lemma OneLine(t: string)
    requires '\n' !in t && (t == [] || t[|t| - 1] != '\r')
    ensures FileLines(t) == [t]
  {
  }

  /**
   * The file's lines after `writeln!` in append mode adds `t` and a newline
   * (src/playlist.rs:129-130, 139-140). After a final newline the lines of
   * `t` follow the old ones; otherwise `t` continues the unterminated last
   * line.
   */
  function Appended(lines: seq<string>, terminated: bool, t: string): (r: seq<string>)
    requires |lines| > 0
    ensures |r| >= |lines| && r[..|lines| - 1] == lines[..|lines| - 1]
  {
    if terminated then lines + FileLines(t)
    else lines[..|lines| - 1] + FileLines(lines[|lines| - 1] + t)
  }

  /** Without a final newline, a one-line text is glued onto the last line. */
  lemma Glued(lines: seq<string>, t: string)
    requires |lines| > 0 && '\n' !in lines[|lines| - 1]
    requires '\n' !in t && t != [] && t[|t| - 1] != '\r'
    ensures Appended(lines, false, t) == lines[..|lines| - 1] + [lines[|lines| - 1] + t]
  {
    OneLine(lines[|lines| - 1] + t);
  }

  /**
   * A file holding only the header, without a final newline: the first
   * addition continues the header line, and the next `open` rejects the
   * file as missing its header.
   */
  lemma HeaderGlued(root: Path, t: string)
    requires IsAbsolute(root)
    requires '\n' !in t && t != [] && !IsWhitespace(t[|t| - 1])
    ensures Appended([Header], false, t) == [Header + t]
    ensures Loaded(root, Some(Appended([Header], false, t))) == Failure(MissingHeader)
  {
    assert '\n' !in Header;
    Glued([Header], t);
    var line := Header + t;
    assert line[0] == '#' && line[|line| - 1] == t[|t| - 1];
    TrimFixes(line);
    assert |line| > |Header|;
  }

  /** A text the reading in `open` takes back unchanged: one line, trimmed, and for a Positive entry not a comment. */
  predicate Clean(e: Entry, t: string) {
    '\n' !in t && Trim(t) == t && (e.Positive? ==> t == [] || t[0] != '#')
  }

  /** A clean written line is read back as one line holding the entry that was added. */
  lemma RawReadsBack(root: Path, e: Entry)
    requires Canonical(root) && Canonical(e.path.path)
    requires Clean(e, RawText(root, e.path))
    ensures FileLines(LineFor(root, e)) == [LineFor(root, e)]
    ensures LineEntry(root, LineFor(root, e)) == [e]
  {
    ToTextReadsBack(e.path, RelativeTo(root));
    CleanLine(root, e, RawText(root, e.path));
  }

  /** A clean text that names the entry's path is read back as one line holding the entry. */
  lemma CleanLine(root: Path, e: Entry, t: string)
    requires IsAbsolute(root) && Clean(e, t)
    requires Resolve(Join(root, Parse(t))) == e.path.path
    ensures var line := if e.Positive? then t else NegativePrefix + t;
      FileLines(line) == [line] && LineEntry(root, line) == [e]
  {
    TrimFixes(t);
    if e.Positive? {
      CleanPositive(root, e, t);
    } else {
      CleanNegative(root, e, t);
    }
  }

  lemma CleanPositive(root: Path, e: Entry, t: string)
    requires IsAbsolute(root) && e.Positive? && Trim(t) == t && (t == [] || t[0] != '#')
    requires '\n' !in t && (t == [] || !IsWhitespace(t[|t| - 1]))
    requires Resolve(Join(root, Parse(t))) == e.path.path
    ensures FileLines(t) == [t] && LineEntry(root, t) == [e]
  {
    PositiveText(root, t);
    OneLine(t);
  }

  lemma CleanNegative(root: Path, e: Entry, t: string)
    requires IsAbsolute(root) && e.Negative? && Trim(t) == t
    requires '\n' !in t && (t == [] || !IsWhitespace(t[|t| - 1]))
    requires Resolve(Join(root, Parse(t))) == e.path.path
    ensures FileLines(NegativePrefix + t) == [NegativePrefix + t] && LineEntry(root, NegativePrefix + t) == [e]
  {
    NegativeLine(root, t);
    PrefixOneLine(t);
  }

  lemma PrefixOneLine(t: string)
    requires '\n' !in t && (t == [] || !IsWhitespace(t[|t| - 1]))
    ensures FileLines(NegativePrefix + t) == [NegativePrefix + t]
  {
    var line := NegativePrefix + t;
    assert '\n' !in NegativePrefix;
    assert line[|line| - 1] != '\r' by {
      if t != [] {
        assert line[|line| - 1] == t[|t| - 1];
      }
    }
    OneLine(line);
  }

  /** Appending an entry's lines keeps the entries in step with the file when its text is clean. */
  lemma KeepsStep(root: Path, lines: seq<string>, entries: seq<Entry>, e: Entry)
    requires Canonical(root) && Canonical(e.path.path)
    ensures Synced(root, lines, entries) && Clean(e, RawText(root, e.path)) ==>
      Synced(root, lines + FileLines(LineFor(root, e)), entries + [e])
  {
    if Synced(root, lines, entries) && Clean(e, RawText(root, e.path)) {
      RawReadsBack(root, e);
      Added(root, lines, entries, LineFor(root, e), e);
    }
  }

  /** A line that does not open with `#` reads as a Positive entry, once trimmed. */
  lemma PositiveText(root: Path, line: string)
    requires IsAbsolute(root) && (line == [] || line[0] != '#')
    ensures LineEntry(root, line) == [Positive(FromAbsPath(Join(root, Parse(Trim(line)))))]
  {
    assert !StartsWith(line, "#");
    assert !StartsWith(line, NegativePrefix) by {
      if |NegativePrefix| <= |line| {
        assert line[0] == line[..|NegativePrefix|][0];
      }
    }
  }

  /** A trimmed text behind the prefix reads as a Negative entry. */
  lemma NegativeLine(root: Path, text: string)
    requires IsAbsolute(root) && Trim(text) == text
    ensures LineEntry(root, NegativePrefix + text) == [Negative(FromAbsPath(Join(root, Parse(text))))]
  {
    var line := NegativePrefix + text;
    assert line[..|NegativePrefix|] == NegativePrefix;
    assert line[|NegativePrefix|..] == text;
  }

  // ---------------------------------------------------------------------
  // A writer that always reads back

  /**
   * The text a relative path would be written as so that reading gives it
   * back: a `./` in front when it would otherwise open with `#` or
   * whitespace, and a `/.` behind when it would otherwise end with
   * whitespace, so that neither the comment test nor the trim on reading
   * can change it.
   */
  function Escaped(t: string): string {
    var back := if t != [] && IsWhitespace(t[|t| - 1]) then DotAfter(t) else t;
    if t != [] && (t[0] == '#' || IsWhitespace(t[0])) then DotBefore(back) else back
  }

  /** An escaped text survives the trim on reading and is never taken for a comment. */
  lemma EscapedClean(t: string)
    ensures Trim(Escaped(t)) == Escaped(t)
    ensures Escaped(t) == [] || Escaped(t)[0] != '#'
  {
    var e := Escaped(t);
    if t != [] {
      var back := if IsWhitespace(t[|t| - 1]) then DotAfter(t) else t;
      assert back != [] && !IsWhitespace(back[|back| - 1]);
      if t[0] == '#' || IsWhitespace(t[0]) {
        assert e == DotBefore(back) && e[0] == '.' && e[|e| - 1] == back[|back| - 1];
      } else {
        assert e == back && e[0] == t[0];
      }
    }
    TrimFixes(e);
  }

  /** Escaping adds only `./` in front and `/.` behind: it brings in no line break. */
  lemma EscapedNewline(t: string)
    ensures '\n' in Escaped(t) ==> '\n' in t
  {
    var pre: string := if t != [] && (t[0] == '#' || IsWhitespace(t[0])) then ['.', Separator] else [];
    var post: string := if t != [] && IsWhitespace(t[|t| - 1]) then [Separator, '.'] else [];
    assert Escaped(t) == pre + t + post;
    assert '\n' !in pre && '\n' !in post;
  }

  /** `./` in front of a text. */
  function DotBefore(t: string): (r: string)
    ensures |r| == |t| + 2 && r[0] == '.' && r[2..] == t
  {
    ['.', Separator] + t
  }

  /** `/.` behind a text. */
  function DotAfter(t: string): (r: string)
    ensures |r| == |t| + 2 && r[|r| - 1] == '.' && r[..|t|] == t
  {
    t + [Separator, '.']
  }

  /** The escaped text of a path, relative to the playlist's directory. */
  function EscapedText(root: Path, a: AbsPath): string
    requires IsNormalAbsolute(root) && Canonical(a.path)
  {
    Escaped(RawText(root, a))
  }

  /** The escaped line for an entry. */
  function EscapedLineFor(root: Path, e: Entry): string
    requires IsNormalAbsolute(root) && Canonical(e.path.path)
  {
    match e
    case Positive(a) => EscapedText(root, a)
    case Negative(a) => NegativePrefix + EscapedText(root, a)
  }

  /** An escaped relative text parses as the same path, maybe behind a `.`. */
  lemma EscapedParse(t: string, rel: Path)
    requires PlainRelative(rel) && t == Render(rel)
    ensures Parse(Escaped(t)) == rel || Parse(Escaped(t)) == [CurDir] + rel
  {
    if rel == [] {
      assert t == [] && Escaped(t) == [];
      assert Parse([]) == Segments([""], true) == [];
    } else {
      assert t == JoinNames(rel);
      FirstChar(rel);
      var back := if IsWhitespace(t[|t| - 1]) then DotAfter(t) else t;
      DotTail(t, rel, false);
      DotTail(t, rel, true);
      if t[0] == '#' || IsWhitespace(t[0]) {
        assert Escaped(t) == DotBefore(back);
        DotFront(back, rel);
      } else {
        assert Escaped(t) == back;
        assert back[0] == t[0];
        assert Parse(back) == Segments(Split(back), true);
      }
    }
  }

  lemma FirstChar(rel: Path)
    requires PlainRelative(rel) && rel != []
    ensures JoinNames(rel) != [] && JoinNames(rel)[0] != Separator
  {
    var n := Name(rel[0]);
    assert n != [] && n[0] != Separator by {
      if rel[0].Normal? {
        assert n[0] in n;
      }
    }
    if |rel| > 1 {
      assert JoinNames(rel) == n + [Separator] + JoinNames(rel[1..]);
    }
  }

  /** A trailing `/.` adds nothing to the components of a relative path's text. */
  lemma DotTail(t: string, rel: Path, opening: bool)
    requires PlainRelative(rel) && rel != [] && t == JoinNames(rel)
    ensures Segments(Split(t), opening) == rel
    ensures Segments(Split(DotAfter(t)), opening) == rel
  {
    SplitJoin(rel);
    SegmentsNames(rel, opening);
    var dot := ['.'];
    assert DotAfter(t) == t + [Separator] + dot;
    SplitAppend(t, dot);
    SplitWhole(dot);
    SegmentsAppend(Names(rel), [dot], opening);
    assert Segments([dot], false) == [];
  }

  /** A leading `./` adds a `.` component in front of a relative path. */
  lemma DotFront(back: string, rel: Path)
    requires Segments(Split(back), false) == rel
    ensures Parse(DotBefore(back)) == [CurDir] + rel
  {
    var s := DotBefore(back);
    var dot := ['.'];
    assert s == dot + [Separator] + back;
    SplitAppend(dot, back);
    SplitWhole(dot);
    var pieces := [dot] + Split(back);
    assert Split(s) == pieces;
    assert s[0] != Separator;
    assert Parse(s) == Segments(pieces, true);
    SegmentsAppend([dot], Split(back), true);
    assert Segments([dot], true) == [CurDir];
  }

  /** The escaped line of an entry whose names hold no newline is read back as one line holding the entry. */
  lemma EscapedReadsBack(root: Path, e: Entry)
    requires Canonical(root) && Canonical(e.path.path)
    requires '\n' !in RawText(root, e.path)
    ensures FileLines(EscapedLineFor(root, e)) == [EscapedLineFor(root, e)]
    ensures LineEntry(root, EscapedLineFor(root, e)) == [e]
  {
    EscapedPath(root, e.path);
    EscapedClean(RawText(root, e.path));
    CleanLine(root, e, EscapedText(root, e.path));
  }

  /** The path of an escaped line, joined onto the playlist's directory, normalises to the added path. */
  lemma EscapedPath(root: Path, a: AbsPath)
    requires Canonical(root) && Canonical(a.path)
    ensures '\n' in EscapedText(root, a) ==> '\n' in RawText(root, a)
    ensures IsAbsolute(Join(root, Parse(EscapedText(root, a))))
    ensures FromAbsPath(Join(root, Parse(EscapedText(root, a)))) == a
  {
    var t := RawText(root, a);
    EscapedNewline(t);
    var rel := Relativize(a.path, root);
    forall i | 0 < i < |a.path| ensures ValidName(a.path[i].name) {
      NamesAfterRoot(a.path, i);
      assert a.path[i] in a.path;
    }
    RelativizePlain(a.path, root);
    ParseRender(rel);
    ToTextReadsBack(a, RelativeTo(root));
    assert Parse(t) == rel;
    EscapedParse(t, rel);
    var q := Parse(Escaped(t));
    assert !IsAbsolute(q);
    ResolveAfterNormal(root, rel);
    ResolveAfterNormal(root, q);
    if q != rel {
      ResolveOntoAppend(root, [CurDir], rel);
      assert ResolveOnto(root, [CurDir]) == root;
    }
    assert Resolve(Join(root, q)) == a.path;
  }

  // ---------------------------------------------------------------------
  // Where the writer as it stands and the escaping one part

  /**
   * A file whose name opens with `#`, such as `#a.mp3`, is written as a
   * comment line: reopening loses its entry, or, behind `#NEGATIVE:`, turns
   * it into a Negative one. Escaped, it is kept.
   */
  lemma CommentNameLost(root: Path, name: string)
    requires Canonical(root) && ValidName(name) && name[0] == '#' && '\n' !in name
    ensures Canonical(root + [Normal(name)])
    ensures LineFor(root, Positive(AbsPath(root + [Normal(name)]))) == name
    ensures LineEntry(root, name) != [Positive(AbsPath(root + [Normal(name)]))]
    ensures !StartsWith(name, NegativePrefix) ==> LineEntry(root, name) == []
    ensures LineEntry(root, EscapedLineFor(root, Positive(AbsPath(root + [Normal(name)])))) == [Positive(AbsPath(root + [Normal(name)]))]
  {
    ChildText(root, name);
    assert StartsWith(name, "#");
    assert LineEntry(root, EscapedLineFor(root, Positive(AbsPath(root + [Normal(name)])))) == [Positive(AbsPath(root + [Normal(name)]))] by {
      EscapedReadsBack(root, Positive(AbsPath(root + [Normal(name)])));
    }
  }

  /** A file whose name opens with a space, such as ` a.mp3`, is written with it, and the trim on reading drops it. */
  lemma SpaceNameMoved(root: Path, name: string)
    requires Canonical(root) && ValidName(name) && !IsWhitespace(name[0]) && !IsWhitespace(name[|name| - 1])
    ensures Canonical(root + [Normal([' '] + name)])
    ensures LineFor(root, Positive(AbsPath(root + [Normal([' '] + name)]))) == [' '] + name
    ensures LineEntry(root, [' '] + name) == [Positive(AbsPath(root + [Normal(name)]))]
    ensures root + [Normal(name)] != root + [Normal([' '] + name)]
  {
    var spaced := [' '] + name;
    assert ValidName(spaced) by {
      assert spaced != "." && spaced != ".." by {
        assert spaced[0] == ' ';
      }
    }
    ChildText(root, spaced);
    SpaceTrim(name);
    PositiveText(root, spaced);
    NameRead(root, name);
    assert (root + [Normal(name)])[|root|] != (root + [Normal(spaced)])[|root|];
  }

  /** A file whose name holds a newline is written as more than one line, which no reading can take back as its entry. */
  lemma NewlineNameSplit(root: Path, name: string)
    requires Canonical(root) && ValidName(name) && '\n' in name
    ensures Canonical(root + [Normal(name)])
    ensures |FileLines(LineFor(root, Positive(AbsPath(root + [Normal(name)]))))| > 1
  {
    ChildText(root, name);
  }

  /** One space in front of a text that is otherwise trimmed is all the trim removes. */
  lemma SpaceTrim(t: string)
    requires t != [] && !IsWhitespace(t[0]) && !IsWhitespace(t[|t| - 1])
    ensures Trim([' '] + t) == t
  {
    var s := [' '] + t;
    assert s[1] == t[0] && s[1..] == t;
    assert Leading(s, 0) == Leading(s, 1) == 1;
    assert TrimStart(s) == t;
    assert Trailing(t, |t|) == |t|;
  }

  /** The display of a file directly inside the playlist's directory is its name. */
  lemma ChildText(root: Path, name: string)
    requires Canonical(root) && ValidName(name)
    ensures Canonical(root + [Normal(name)])
    ensures RawText(root, AbsPath(root + [Normal(name)])) == name
  {
    ChildCanonical(root, name);
    ChildRelative(root, name);
  }

  lemma ChildCanonical(root: Path, name: string)
    requires Canonical(root) && ValidName(name)
    ensures Canonical(root + [Normal(name)])
  {
    var p := root + [Normal(name)];
    assert forall i :: 0 <= i < |p| ==> p[i] == (if i < |root| then root[i] else Normal(name));
    assert forall c :: c in p ==> c in root || c == Normal(name);
  }

  lemma ChildRelative(root: Path, name: string)
    requires IsNormalAbsolute(root) && IsNormalAbsolute(root + [Normal(name)])
    ensures Relativize(root + [Normal(name)], root) == [Normal(name)]
  {
    var p := root + [Normal(name)];
    assert p[..|root|] == root;
    assert CommonPrefix(p, root) == |root|;
    assert p[|root|..] == [Normal(name)];
  }

  /** The display of a file one directory below the playlist's directory is "dir/name". */
  lemma NestedText(root: Path, dir: string, name: string)
    requires Canonical(root) && ValidName(dir) && ValidName(name)
    ensures Canonical(root + [Normal(dir), Normal(name)])
    ensures RawText(root, AbsPath(root + [Normal(dir), Normal(name)])) == dir + [Separator] + name
  {
    ChildCanonical(root, dir);
    ChildCanonical(root + [Normal(dir)], name);
    var p := root + [Normal(dir), Normal(name)];
    assert root + [Normal(dir)] + [Normal(name)] == p;
    assert p[..|root|] == root;
    assert CommonPrefix(p, root) == |root|;
    assert p[|root|..] == [Normal(dir), Normal(name)];
    var rel := [Normal(dir), Normal(name)];
    assert Relativize(p, root) == rel;
    assert !IsAbsolute(rel) && rel[1..] == [Normal(name)];
    assert JoinNames(rel[1..]) == name;
    assert JoinNames(rel) == dir + [Separator] + name;
  }

  /** Such a line is read back as the entry that was added, when it is clean. */
  lemma NestedReadsBack(root: Path, dir: string, name: string, e: Entry)
    requires Canonical(root) && ValidName(dir) && ValidName(name)
    requires e.path == AbsPath(root + [Normal(dir), Normal(name)])
    requires '\n' !in dir && '\n' !in name
    requires !IsWhitespace(dir[0]) && !IsWhitespace(name[|name| - 1])
    requires e.Positive? ==> dir[0] != '#'
    ensures var t := dir + [Separator] + name;
      && LineFor(root, e) == (if e.Positive? then t else NegativePrefix + t)
      && FileLines(LineFor(root, e)) == [LineFor(root, e)]
      && LineEntry(root, LineFor(root, e)) == [e]
  {
    NestedText(root, dir, name);
    var t := dir + [Separator] + name;
    assert t[0] == dir[0] && t[|t| - 1] == name[|name| - 1];
    assert '\n' !in t;
    TrimFixes(t);
    RawReadsBack(root, e);
  }

  /**
   * The test at src/playlist.rs:168-191: adding music/track1.mp3 writes
   * "music/track1.mp3", adding music/track2.mp3 as a negative writes
   * "#NEGATIVE:music/track2.mp3", and a later `open` reads each line back as
   * the entry that was added. The written text and the read-back are kept
   * in two lemmas, so that the reading functions are not unfolded on the
   * literal line.
   */
  lemma ExampleTracksWritten(root: Path)
    requires Canonical(root)
    ensures LineFor(root, Positive(AbsPath(root + [Normal("music"), Normal("track1.mp3")]))) == "music/track1.mp3"
    ensures LineFor(root, Negative(AbsPath(root + [Normal("music"), Normal("track2.mp3")])))
            == "#NEGATIVE:music/track2.mp3"
  {
    NestedText(root, "music", "track1.mp3");
    NestedText(root, "music", "track2.mp3");
    assert "music" + [Separator] + "track1.mp3" == "music/track1.mp3";
    assert NegativePrefix + ("music" + [Separator] + "track2.mp3") == "#NEGATIVE:music/track2.mp3";
  }

  /** The names of the test are valid, hold no newline and have no surrounding whitespace. */
  lemma TrackNames()
    ensures ValidName("music") && '\n' !in "music" && !IsWhitespace("music"[0]) && "music"[0] != '#'
    ensures ValidName("track1.mp3") && '\n' !in "track1.mp3" && !IsWhitespace("track1.mp3"[9])
    ensures ValidName("track2.mp3") && '\n' !in "track2.mp3" && !IsWhitespace("track2.mp3"[9])
  {
  }

  lemma ExampleTracksRead(root: Path)
    requires Canonical(root)
    ensures var track1 := Positive(AbsPath(root + [Normal("music"), Normal("track1.mp3")]));
      LineEntry(root, LineFor(root, track1)) == [track1]
    ensures var track2 := Negative(AbsPath(root + [Normal("music"), Normal("track2.mp3")]));
      LineEntry(root, LineFor(root, track2)) == [track2]
  {
    TrackNames();
    NestedReadsBack(root, "music", "track1.mp3", Positive(AbsPath(root + [Normal("music"), Normal("track1.mp3")])));
    NestedReadsBack(root, "music", "track2.mp3", Negative(AbsPath(root + [Normal("music"), Normal("track2.mp3")])));
  }

  /** A bare file name on a line names that file inside the playlist's directory. */
  lemma NameRead(root: Path, name: string)
    requires IsNormalAbsolute(root) && ValidName(name)
    ensures FromAbsPath(Join(root, Parse(name))) == AbsPath(root + [Normal(name)])
  {
    SplitWhole(name);
    assert name[0] != Separator by {
      assert name[0] in name;
    }
    assert Parse(name) == Segments([name], true);
    assert Segments([name], true) == SegmentOf(name, true) + Segments([], false);
    ResolveAfterNormal(root, [Normal(name)]);
    assert ResolveOnto(root, []) == root;
  }

  // ---------------------------------------------------------------------
  // The playlist object (src/playlist.rs:40-44)

  class M3uPlaylist {
    var path: AbsPath
    var root: AbsPath
    var entries: seq<Entry>
    /** The file's lines. */
    var lines: seq<string>
    /** The file ends with a newline. */
    var terminated: bool

    /** Both paths are normalised and the file has a line. */
    ghost predicate Valid()
      reads this
    {
      Canonical(path.path) && Canonical(root.path) && |lines| > 0
    }

    /** The entries are exactly what reopening the file would read. */
    ghost predicate InStep()
      reads this
    {
      Synced(root.path, lines, entries)
    }

    constructor (path: AbsPath, root: AbsPath, lines: seq<string>, terminated: bool, entries: seq<Entry>)
      ensures this.path == path && this.root == root
      ensures this.lines == lines && this.terminated == terminated && this.entries == entries
    {
      this.path := path;
      this.root := root;
      this.lines := lines;
      this.terminated := terminated;
      this.entries := entries;
    }

    /**
     * `M3uPlaylist::open`: locate the file, take its directory as the root,
     * and either create the file with the header or read its entries.
     * `terminated` tells whether an existing file ends with a newline.
     */
    static method Open(file: Path, cwd: Path, existing: Option<seq<string>>, terminated: bool)
      returns (r: Result<M3uPlaylist, Error>)
      requires Components(file)
      requires IsAbsolute(cwd) && Components(cwd)
      ensures RootFirst(Located(file, cwd))
      ensures Parent(Located(file, cwd)).None? ==> r == Failure(NoParent)
      ensures Parent(Located(file, cwd)).Some? ==>
        var root := FromAbsPath(Parent(Located(file, cwd)).value);
        match Loaded(root.path, existing)
        case Failure(e) => r == Failure(e)
        case Success((lines, entries)) =>
          && r.Success? && fresh(r.value) && r.value.Valid() && r.value.InStep()
          && r.value.path == FromAbsPath(Located(file, cwd)) && r.value.root == root
          && r.value.lines == lines && r.value.entries == entries
          && r.value.terminated == (existing.None? || terminated)
    {
      var full := Located(file, cwd);
      LocatedComponents(file, cwd);
      r := OpenAt(full, existing, terminated);
    }

    /** `open` once the file is located: its directory, then the file's lines. */
    static method OpenAt(full: Path, existing: Option<seq<string>>, terminated: bool)
      returns (r: Result<M3uPlaylist, Error>)
      requires IsAbsolute(full) && RootFirst(full) && ProperNames(full)
      ensures Parent(full).None? ==> r == Failure(NoParent)
      ensures Parent(full).Some? ==>
        var root := FromAbsPath(Parent(full).value);
        match Loaded(root.path, existing)
        case Failure(e) => r == Failure(e)
        case Success((lines, entries)) =>
          && r.Success? && fresh(r.value) && r.value.Valid() && r.value.InStep()
          && r.value.path == FromAbsPath(full) && r.value.root == root
          && r.value.lines == lines && r.value.entries == entries
          && r.value.terminated == (existing.None? || terminated)
    {
      var parent := Parent(full);
      if parent.None? {
        return Failure(NoParent);
      }
      ParentCanonical(full);
      var path, root := FromAbsPath(full), FromAbsPath(parent.value);
      var loaded := Load(root.path, existing);
      match loaded {
        case Failure(e) =>
          return Failure(e);
        case Success((lines, entries)) =>
          // A new file is written with `writeln!`, so it ends with a newline.
          var playlist := new M3uPlaylist(path, root, lines, existing.None? || terminated, entries);
          return Success(playlist);
      }
    }

    /** The two branches of `open` (src/playlist.rs:78-118): create the file with the header, or check and read it. */
    static method Load(root: Path, existing: Option<seq<string>>) returns (r: Result<(seq<string>, seq<Entry>), Error>)
      requires IsAbsolute(root)
      ensures r == Loaded(root, existing)
    {
      match existing {
        case None =>
          return Success(([Header], []));
        case Some(lines) =>
          if lines == [] {
            return Failure(EmptyFile);
          }
          if Trim(lines[0]) != Header {
            return Failure(MissingHeader);
          }
          var entries := ReadEntries(root, lines);
          return Success((lines, entries));
      }
    }

    /** The loop at src/playlist.rs:97-116: every line after the header, in order. */
    static method ReadEntries(root: Path, lines: seq<string>) returns (entries: seq<Entry>)
      requires IsAbsolute(root) && |lines| > 0
      ensures entries == Parsed(root, lines[1..])
    {
      entries := [];
      for i := 1 to |lines|
        invariant entries == Parsed(root, lines[1..i])
      {
        entries := entries + LineEntry(root, lines[i]);
        ReadStep(root, lines, i);
      }
      WholeTail(lines);
    }

    /**
     * `add_positive`: the entry at the end, and its display text with a
     * newline appended to the file. The two stay in step when the file ended
     * with a newline and the text reads back unchanged.
     */
    method AddPositive(p: Path)
      requires Valid()
      requires IsAbsolute(p) && RootFirst(p) && ProperNames(p)
      modifies this
      ensures Valid() && terminated
      ensures path == old(path) && root == old(root)
      ensures entries == old(entries) + [Positive(FromAbsPath(p))]
      ensures lines == Appended(old(lines), old(terminated), LineFor(root.path, Positive(FromAbsPath(p))))
      ensures old(InStep()) && old(terminated) && Clean(Positive(FromAbsPath(p)), RawText(root.path, FromAbsPath(p))) ==>
                InStep()
    {
      var e := Positive(FromAbsPath(p));
      KeepsStep(root.path, lines, entries, e);
      Append(e, LineFor(root.path, e));
    }

    /** `add_negative`: as `add_positive`, with a Negative entry and its text behind `#NEGATIVE:`. */
    method AddNegative(p: Path)
      requires Valid()
      requires IsAbsolute(p) && RootFirst(p) && ProperNames(p)
      modifies this
      ensures Valid() && terminated
      ensures path == old(path) && root == old(root)
      ensures entries == old(entries) + [Negative(FromAbsPath(p))]
      ensures lines == Appended(old(lines), old(terminated), LineFor(root.path, Negative(FromAbsPath(p))))
      ensures old(InStep()) && old(terminated) && Clean(Negative(FromAbsPath(p)), RawText(root.path, FromAbsPath(p))) ==>
                InStep()
    {
      var e := Negative(FromAbsPath(p));
      KeepsStep(root.path, lines, entries, e);
      Append(e, LineFor(root.path, e));
    }

    /**
     * What both additions share: push the entry, then append the text and a
     * newline in append mode, after which the file ends with a newline.
     */
    method Append(e: Entry, t: string)
      requires Valid()
      modifies this
      ensures Valid() && terminated
      ensures path == old(path) && root == old(root)
      ensures entries == old(entries) + [e]
      ensures lines == Appended(old(lines), old(terminated), t)
    {
      entries, lines, terminated := entries + [e], Appended(lines, terminated, t), true;
    }
  }
}
