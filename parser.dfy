/**
 * src/data/parser.py: the markdown milestone list read line by line into
 * milestones grouped by the `##` header above them, and the random pick
 * over them, weighted towards later entries.
 *
 * The file is given as its sequence of lines. `_parse` is the method
 * `MilestoneParser.Parse`, specified by the fold `ParseUpTo` of one step per
 * line; what the fold computes is then stated without it, through
 * `LastHeader`, `HeaderNames` and `Expected`.
 */
module MilestoneParsing {
  import opened Wrappers
  import opened Text
  import opened Grouping
  import opened Weighting

  /** The category a bullet would get before any header. */
  const Uncategorized := "未分類"

  datatype Milestone = Milestone(text: string, category: string, rawLine: string, lineNumber: nat)

  function CategoryOf(m: Milestone): string {
    m.category
  }

  /** The characters counted as word characters (`\w`): ASCII letters, digits
      and `_`, Latin letters, kana, CJK ideographs, Hangul syllables and the
      full-width letters and digits. */
  predicate IsWordChar(c: char) {
    || ('0' <= c <= '9') || ('A' <= c <= 'Z') || ('a' <= c <= 'z') || c == '_'
    || ('\U{C0}' <= c <= '\U{24F}' && c != '\U{D7}' && c != '\U{F7}')
    || ('\U{3041}' <= c <= '\U{3096}') || ('\U{30A1}' <= c <= '\U{30FA}')
    || ('\U{3400}' <= c <= '\U{4DBF}') || ('\U{4E00}' <= c <= '\U{9FFF}')
    || ('\U{AC00}' <= c <= '\U{D7A3}')
    || ('\U{FF10}' <= c <= '\U{FF19}') || ('\U{FF21}' <= c <= '\U{FF3A}') || ('\U{FF41}' <= c <= '\U{FF5A}')
  }

  /** A character of the class `[^\w\s]`: an emoji or other symbol. */
  predicate IsSymbol(c: char) {
    !IsWordChar(c) && !IsSpace(c)
  }

  function DropHashes(s: string): string {
    if s != [] && s[0] == '#' then DropHashes(s[1..]) else s
  }

  function DropSymbols(s: string): string {
    if s != [] && IsSymbol(s[0]) then DropSymbols(s[1..]) else s
  }

  /** A header's category: `re.sub(r'^#+\s*', '', line).strip()`, then
      `re.sub(r'^[^\w\s]+\s*', '', name).strip()`. Each substitution is
      followed by `strip()`, which also removes the `\s*` it matched. */
  function CategoryName(line: string): string {
    Strip(DropSymbols(Strip(DropHashes(line))))
  }

  /** `re.sub(r'^#+', '', s)` cuts the longest run of leading `#`s: the
      result is a suffix of `s`, everything before it is `#`, and it does not
      itself start with `#`. */
  lemma {:induction false} DropHashesCut(s: string)
    ensures |DropHashes(s)| <= |s| && DropHashes(s) == s[|s| - |DropHashes(s)|..]
    ensures forall k :: 0 <= k < |s| - |DropHashes(s)| ==> s[k] == '#'
    ensures DropHashes(s) == [] || DropHashes(s)[0] != '#'
  {
    if s != [] && s[0] == '#' {
      DropHashesCut(s[1..]);
      assert s[1..][|s[1..]| - |DropHashes(s)|..] == s[|s| - |DropHashes(s)|..];
      forall k | 0 < k < |s| - |DropHashes(s)|
        ensures s[k] == '#'
      {
        assert s[1..][k - 1] == s[k];
      }
    }
  }

  /** `re.sub(r'^[^\w\s]+', '', s)` cuts the longest run of leading symbols:
      the result is a suffix of `s`, everything before it is a symbol, and it
      does not itself start with one. */
  lemma {:induction false} DropSymbolsCut(s: string)
    ensures |DropSymbols(s)| <= |s| && DropSymbols(s) == s[|s| - |DropSymbols(s)|..]
    ensures forall k :: 0 <= k < |s| - |DropSymbols(s)| ==> IsSymbol(s[k])
    ensures DropSymbols(s) == [] || !IsSymbol(DropSymbols(s)[0])
  {
    if s != [] && IsSymbol(s[0]) {
      DropSymbolsCut(s[1..]);
      assert s[1..][|s[1..]| - |DropSymbols(s)|..] == s[|s| - |DropSymbols(s)|..];
      forall k | 0 < k < |s| - |DropSymbols(s)|
        ensures IsSymbol(s[k])
      {
        assert s[1..][k - 1] == s[k];
      }
    }
  }

  /** Cutting a run of `#`s that ends where `s` stops having them. */
  lemma {:induction false} DropHashesAt(s: string, k: nat)
    requires k <= |s| && (forall m :: 0 <= m < k ==> s[m] == '#') && (k < |s| ==> s[k] != '#')
    ensures DropHashes(s) == s[k..]
  {
    if k > 0 {
      DropHashesAt(s[1..], k - 1);
      assert s[1..][k - 1..] == s[k..];
    }
  }

  /** Cutting a run of symbols that ends where `s` stops having them. */
  lemma {:induction false} DropSymbolsAt(s: string, k: nat)
    requires k <= |s| && (forall m :: 0 <= m < k ==> IsSymbol(s[m])) && (k < |s| ==> !IsSymbol(s[k]))
    ensures DropSymbols(s) == s[k..]
  {
    if k > 0 {
      DropSymbolsAt(s[1..], k - 1);
      assert s[1..][k - 1..] == s[k..];
    }
  }

  /** The parts of a header line, by position: the line is `line[..h]`, all
      `#`; `line[h..a]`, all whitespace; `line[a..b]`, all symbols;
      `line[b..i]`, all whitespace; the category `line[i..j]`; and
      `line[j..]`, all whitespace. Each run is as long as it can be, and the
      category neither starts nor ends with whitespace. */
  predicate HeaderCut(line: string, h: nat, a: nat, b: nat, i: nat, j: nat) {
    && h <= a <= b <= i <= j <= |line|
    && (forall k :: 0 <= k < h ==> line[k] == '#') && (h < |line| ==> line[h] != '#')
    && (forall k :: h <= k < a ==> IsSpace(line[k])) && (a < |line| ==> !IsSpace(line[a]))
    && (forall k :: a <= k < b ==> IsSymbol(line[k])) && (b < |line| ==> !IsSymbol(line[b]))
    && (forall k :: b <= k < i ==> IsSpace(line[k])) && (i < |line| ==> !IsSpace(line[i]))
    && (forall k :: j <= k < |line| ==> IsSpace(line[k])) && (i < j ==> !IsSpace(line[j - 1]))
  }

  /** The run of characters satisfying `p` that starts at `start` ends at
      `q`, the first position from `start` on where `p` fails. */
  lemma {:induction false} RunFrom(line: string, start: nat, p: char -> bool) returns (q: nat)
    requires start <= |line|
    ensures start <= q <= |line| && (forall k :: start <= k < q ==> p(line[k])) && (q < |line| ==> !p(line[q]))
    decreases |line| - start
  {
    if start < |line| && p(line[start]) {
      q := RunFrom(line, start + 1, p);
    } else {
      q := start;
    }
  }

  /** The whitespace that ends `line` begins at `j`, no earlier than `i`. */
  lemma {:induction false} TrailFrom(line: string, i: nat, t: nat) returns (j: nat)
    requires i <= t <= |line| && forall k :: t <= k < |line| ==> IsSpace(line[k])
    ensures i <= j <= t && (forall k :: j <= k < |line| ==> IsSpace(line[k])) && (i < j ==> !IsSpace(line[j - 1]))
    decreases t - i
  {
    if i < t && IsSpace(line[t - 1]) {
      j := TrailFrom(line, i, t - 1);
    } else {
      j := t;
    }
  }

  /** Every header line falls into those parts. */
  lemma HeaderParts(line: string) returns (h: nat, a: nat, b: nat, i: nat, j: nat)
    ensures HeaderCut(line, h, a, b, i, j)
  {
    h := RunFrom(line, 0, c => c == '#');
    a := RunFrom(line, h, IsSpace);
    b := RunFrom(line, a, IsSymbol);
    i := RunFrom(line, b, IsSpace);
    j := TrailFrom(line, i, |line|);
  }

  /** The category of a header line is its part `line[i..j]`: the leading
      `#`s, the whitespace after them, the leading symbols and the whitespace
      after those are all cut, and so is the trailing whitespace. */
  lemma CategoryNameCut(line: string, h: nat, a: nat, b: nat, i: nat, j: nat)
    requires HeaderCut(line, h, a, b, i, j)
    ensures CategoryName(line) == line[i..j]
  {
    DropHashesAt(line, h);
    LStripAt(line[h..], a - h);
    assert line[h..][a - h..] == line[a..];
    if i < j {
      NameAfterSymbols(line, a, b, i, j);
    } else {
      AllSpaceAfterName(line, h, a, b, i, j);
      NoNameAfterSymbols(line, a, b);
    }
  }

  lemma NameAfterSymbols(line: string, a: nat, b: nat, i: nat, j: nat)
    requires a <= b <= i < j <= |line|
    requires (forall k :: a <= k < b ==> IsSymbol(line[k])) && !IsSymbol(line[b])
    requires (forall k :: b <= k < i ==> IsSpace(line[k])) && !IsSpace(line[i])
    requires (forall k :: j <= k < |line| ==> IsSpace(line[k])) && !IsSpace(line[j - 1])
    ensures Strip(DropSymbols(RStrip(line[a..]))) == line[i..j]
  {
    assert RStrip(line[a..]) == line[a..j] by {
      RStripAt(line[a..], j - a);
      assert line[a..][..j - a] == line[a..j];
    }
    assert DropSymbols(line[a..j]) == line[b..j] by {
      DropSymbolsAt(line[a..j], b - a);
      assert line[a..j][b - a..] == line[b..j];
    }
    assert Strip(line[b..j]) == line[i..j] by {
      StripAt(line[b..j], i - b, j - b);
      assert line[b..j][i - b..j - b] == line[i..j];
    }
  }

  lemma NoNameAfterSymbols(line: string, a: nat, b: nat)
    requires a <= b <= |line|
    requires forall k :: a <= k < b ==> IsSymbol(line[k])
    requires forall k :: b <= k < |line| ==> IsSpace(line[k])
    ensures Strip(DropSymbols(RStrip(line[a..]))) == []
  {
    RStripAt(line[a..], b - a);
    assert line[a..][..b - a] == line[a..b];
    DropSymbolsAt(line[a..b], b - a);
  }

  /** A header line with an empty category has only whitespace after its
      symbols. */
  lemma AllSpaceAfterName(line: string, h: nat, a: nat, b: nat, i: nat, j: nat)
    requires HeaderCut(line, h, a, b, i, j) && i == j
    ensures forall k :: b <= k < |line| ==> IsSpace(line[k])
  {
  }

  /** A header's category is the part of its line left once the leading
      `#`s, symbols and whitespace are cut as described by `HeaderCut`, so
      it neither starts nor ends with whitespace. */
  lemma CategoryNameShape(line: string)
    ensures exists h: nat, a: nat, b: nat, i: nat, j: nat :: HeaderCut(line, h, a, b, i, j) && CategoryName(line) == line[i..j]
    ensures CategoryName(line) == [] || (!IsSpace(CategoryName(line)[0]) && !IsSpace(CategoryName(line)[|CategoryName(line)| - 1]))
  {
    var h, a, b, i, j := HeaderParts(line);
    CategoryNameCut(line, h, a, b, i, j);
  }

  /** A header with a leading emoji: the emoji and the space after it go. */
  lemma HeaderExample()
    ensures CategoryName("## 🏆 工作成就") == "工作成就"
  {
    ExampleHashes();
    ExampleSymbols();
    StripLeadingSpace(' ', "🏆 工作成就");
    StripLeadingSpace(' ', "工作成就");
  }

  lemma ExampleHashes()
    ensures DropHashes("## 🏆 工作成就") == " 🏆 工作成就"
  {
    assert "## 🏆 工作成就"[1..][1..] == " 🏆 工作成就";
  }

  lemma ExampleSymbols()
    ensures DropSymbols("🏆 工作成就") == " 工作成就"
  {
    assert "🏆 工作成就"[1..] == " 工作成就";
  }

  /** One whitespace character before trimmed text is all `strip()` removes. */
  lemma StripLeadingSpace(c: char, t: string)
    requires IsSpace(c) && t != [] && !IsSpace(t[0]) && !IsSpace(t[|t| - 1])
    ensures Strip([c] + t) == t
  {
    assert ([c] + t)[1..] == t;
    assert LStrip(t) == t;
    StripTrimmed(t);
  }

  /** What one line of the file is to the parser. */
  datatype LineKind =
    | Blank                 // whitespace only
    | Header(name: string)  // starts with "##"
    | Entry(text: string)   // a bullet holding a milestone
    | Skipped               // anything else, and empty or metadata bullets

  /** The branches of the loop body of `_parse` for one line. */
  function Classify(raw: string): LineKind {
    var line := RStrip(raw);
    if Strip(line) == [] then Blank
    else if StartsWith(line, "##") then Header(CategoryName(line))
    else if StartsWith(Strip(line), "-") then
      var text := Strip(Strip(line)[1..]);
      if text == [] || StartsWith(text, "---") || StartsWith(text, "*") then Skipped else Entry(text)
    else Skipped
  }

  /** A line is blank exactly when it is all whitespace; a header exactly
      when it is not blank and begins with `##` (no indentation); an entry
      exactly when it is a bullet whose text qualifies, that text being
      non-empty, trimmed, and not a `---` divider or `*` note. */
  lemma ClassifyShape(raw: string)
    ensures Classify(raw) == Blank <==> AllSpace(raw)
    ensures Classify(raw).Header? <==> !AllSpace(raw) && StartsWith(raw, "##")
    ensures Classify(raw).Entry? <==> Bullet(raw) && Qualifies(BulletText(raw))
    ensures Classify(raw).Entry? ==> var t := Classify(raw).text;
      && t == BulletText(raw)
      && t != [] && !IsSpace(t[0]) && !IsSpace(t[|t| - 1])
      && !StartsWith(t, "---") && !StartsWith(t, "*")
  {
    ClassifyBlank(raw);
    ClassifyHeader(raw);
    ClassifyEntry(raw);
    if Classify(raw).Entry? {
      StripShape(Strip(raw)[1..]);
    }
  }

  /** A line that is neither blank nor a header and whose first
      non-whitespace character is `-`. */
  predicate Bullet(raw: string) {
    !AllSpace(raw) && !StartsWith(raw, "##") && StartsWith(Strip(raw), "-")
  }

  /** What follows the `-` of a bullet, trimmed. */
  function BulletText(raw: string): string
    requires Bullet(raw)
  {
    Strip(Strip(raw)[1..])
  }

  /** Bullet text that becomes a milestone: not empty, not a `---` divider,
      not a `*` note. */
  predicate Qualifies(text: string) {
    text != [] && !StartsWith(text, "---") && !StartsWith(text, "*")
  }

  lemma ClassifyEntry(raw: string)
    ensures Classify(raw).Entry? <==> Bullet(raw) && Qualifies(BulletText(raw))
    ensures Classify(raw).Entry? ==> Classify(raw).text == BulletText(raw)
  {
    ClassifyBlank(raw);
    ClassifyHeader(raw);
    StripRStrip(raw);
  }

  lemma ClassifyBlank(raw: string)
    ensures Classify(raw) == Blank <==> AllSpace(raw)
  {
    var line := RStrip(raw);
    RStripShape(raw);
    StripShape(line);
    if line == [] {
      assert raw[|line|..] == raw;
    } else {
      assert !IsSpace(line[|line| - 1]) && line[|line| - 1] == raw[|line| - 1];
    }
  }

  lemma ClassifyHeader(raw: string)
    ensures Classify(raw).Header? <==> !AllSpace(raw) && StartsWith(raw, "##")
  {
    ClassifyBlank(raw);
    var line := RStrip(raw);
    RStripShape(raw);
    if !AllSpace(raw) {
      if |line| >= 2 {
        assert line[..2] == raw[..2];
      } else if |raw| >= 2 {
        assert raw[1] == raw[|line|..][0];
      }
    }
  }

  /** One line as the loop body sees it: what kind of line it is, and the
      line with trailing whitespace removed (kept as a milestone's raw line). */
  datatype Scanned = Scanned(kind: LineKind, line: string)

  /** Every line of the file, classified. */
  function Scan(lines: seq<string>): (scan: seq<Scanned>)
    ensures |scan| == |lines|
    ensures forall i :: 0 <= i < |lines| ==> scan[i] == Scanned(Classify(lines[i]), RStrip(lines[i]))
  {
    seq(|lines|, i requires 0 <= i < |lines| => Scanned(Classify(lines[i]), RStrip(lines[i])))
  }

  /** `KeyError(current_category)` out of `self.categories[current_category]`. */
  datatype ParseError = MissingCategory(category: string, lineNumber: nat)

  /** The parser's fields and the loop's running category. */
  datatype ParseState = ParseState(
    milestones: seq<Milestone>,
    categories: map<string, seq<Milestone>>,
    order: seq<string>,
    current: string)

  const Start := ParseState([], map[], [], Uncategorized)

  /** One pass of the loop body on line number `n`. */
  function Step(st: ParseState, s: Scanned, n: nat): Result<ParseState, ParseError> {
    match s.kind
    case Blank => Ok(st)
    case Skipped => Ok(st)
    case Header(name) =>
      if name in st.categories then Ok(st.(current := name))
      else Ok(st.(current := name, categories := st.categories[name := []], order := st.order + [name]))
    case Entry(text) =>
      if st.current !in st.categories then Err(MissingCategory(st.current, n))
      else
        var m := Milestone(text, st.current, s.line, n);
        Ok(st.(milestones := st.milestones + [m],
               categories := st.categories[st.current := st.categories[st.current] + [m]]))
  }

  /** The outcome of `_parse` on the first `k` lines. */
  function ParseUpTo(scan: seq<Scanned>, k: nat): Result<ParseState, ParseError>
    requires k <= |scan|
  {
    if k == 0 then Ok(Start)
    else
      match ParseUpTo(scan, k - 1)
      case Err(e) => Err(e)
      case Ok(st) => Step(st, scan[k - 1], k)
  }

  /** The name of the last header among the first `k` lines. */
  function LastHeader(scan: seq<Scanned>, k: nat): Option<string>
    requires k <= |scan|
  {
    if k == 0 then None
    else if scan[k - 1].kind.Header? then Some(scan[k - 1].kind.name)
    else LastHeader(scan, k - 1)
  }

  /** The names of all headers among the first `k` lines, repeats included. */
  function HeaderNames(scan: seq<Scanned>, k: nat): seq<string>
    requires k <= |scan|
  {
    if k == 0 then []
    else if scan[k - 1].kind.Header? then HeaderNames(scan, k - 1) + [scan[k - 1].kind.name]
    else HeaderNames(scan, k - 1)
  }

  /** Line `i` (0-based) is an entry with no header above it. */
  predicate Orphan(scan: seq<Scanned>, i: nat)
    requires i < |scan|
  {
    scan[i].kind.Entry? && LastHeader(scan, i).None?
  }

  /** The first line among the first `k` that is an orphan entry. */
  function FirstOrphan(scan: seq<Scanned>, k: nat): (i: Option<nat>)
    requires k <= |scan|
    ensures i.None? <==> forall j :: 0 <= j < k ==> !Orphan(scan, j)
    ensures i.Some? ==> i.value < k && Orphan(scan, i.value) && forall j :: 0 <= j < i.value ==> !Orphan(scan, j)
  {
    if k == 0 then None
    else if FirstOrphan(scan, k - 1).Some? then FirstOrphan(scan, k - 1)
    else if Orphan(scan, k - 1) then Some(k - 1)
    else None
  }

  /** The milestones of the first `k` lines: one per entry line, in file order,
      under the last header above it, numbered from 1. */
  function Expected(scan: seq<Scanned>, k: nat): seq<Milestone>
    requires k <= |scan|
  {
    if k == 0 then []
    else if scan[k - 1].kind.Entry? then
      Expected(scan, k - 1) + [Milestone(scan[k - 1].kind.text, LastHeader(scan, k - 1).GetOr(Uncategorized), scan[k - 1].line, k)]
    else Expected(scan, k - 1)
  }

  lemma {:induction false} LastHeaderListed(scan: seq<Scanned>, k: nat)
    requires k <= |scan|
    ensures LastHeader(scan, k).Some? ==> LastHeader(scan, k).value in HeaderNames(scan, k)
    ensures LastHeader(scan, k).None? <==> HeaderNames(scan, k) == []
  {
    if k > 0 {
      LastHeaderListed(scan, k - 1);
    }
  }

  /** `st` is the state after the first `k` lines as the reference
      definitions describe it. */
  ghost predicate Tracks(scan: seq<Scanned>, k: nat, st: ParseState)
    requires k <= |scan|
  {
    && st.milestones == Expected(scan, k)
    && st.order == FirstSeen(HeaderNames(scan, k))
    && Grouped(st.milestones, CategoryOf, st.categories, st.order)
    && st.current == LastHeader(scan, k).GetOr(Uncategorized)
  }

  /** The running category has a bucket exactly when some header came before. */
  lemma CurrentRegistered(scan: seq<Scanned>, k: nat, st: ParseState)
    requires k <= |scan| && Tracks(scan, k, st)
    ensures st.current in st.categories <==> LastHeader(scan, k).Some?
  {
    LastHeaderListed(scan, k);
  }

  /** One line fails exactly when it is an entry with no header above it. */
  lemma StepFails(scan: seq<Scanned>, k: nat, st: ParseState)
    requires 0 < k <= |scan| && Tracks(scan, k - 1, st)
    ensures Step(st, scan[k - 1], k).Err? <==> Orphan(scan, k - 1)
    ensures Step(st, scan[k - 1], k).Err? ==> Step(st, scan[k - 1], k).error == MissingCategory(Uncategorized, k)
  {
    CurrentRegistered(scan, k - 1, st);
  }

  /** One successful line keeps the state in step with the reference definitions. */
  lemma StepTracks(scan: seq<Scanned>, k: nat, st: ParseState)
    requires 0 < k <= |scan| && Tracks(scan, k - 1, st)
    requires Step(st, scan[k - 1], k).Ok?
    ensures Tracks(scan, k, Step(st, scan[k - 1], k).value)
  {
    match scan[k - 1].kind
    case Blank =>
    case Skipped =>
    case Header(name) => HeaderTracks(scan, k, st, name);
    case Entry(text) => EntryTracks(scan, k, st, text);
  }

  lemma HeaderTracks(scan: seq<Scanned>, k: nat, st: ParseState, name: string)
    requires 0 < k <= |scan| && Tracks(scan, k - 1, st)
    requires scan[k - 1].kind == Header(name)
    ensures Tracks(scan, k, Step(st, scan[k - 1], k).value)
  {
    FirstSeenAppend(HeaderNames(scan, k - 1), name);
    assert HeaderNames(scan, k) == HeaderNames(scan, k - 1) + [name];
    assert Expected(scan, k) == Expected(scan, k - 1);
    assert LastHeader(scan, k) == Some(name);
    if name in st.categories {
      KnownHeaderTracks(scan, k, st, name);
    } else {
      NewHeaderTracks(scan, k, st, name);
    }
  }

  lemma KnownHeaderTracks(scan: seq<Scanned>, k: nat, st: ParseState, name: string)
    requires 0 < k <= |scan| && Tracks(scan, k - 1, st)
    requires name in st.categories
    requires HeaderNames(scan, k) == HeaderNames(scan, k - 1) + [name]
    requires Expected(scan, k) == Expected(scan, k - 1) && LastHeader(scan, k) == Some(name)
    ensures Tracks(scan, k, st.(current := name))
  {
    FirstSeenAppend(HeaderNames(scan, k - 1), name);
  }

  lemma NewHeaderTracks(scan: seq<Scanned>, k: nat, st: ParseState, name: string)
    requires 0 < k <= |scan| && Tracks(scan, k - 1, st)
    requires name !in st.categories
    requires HeaderNames(scan, k) == HeaderNames(scan, k - 1) + [name]
    requires Expected(scan, k) == Expected(scan, k - 1) && LastHeader(scan, k) == Some(name)
    ensures Tracks(scan, k, st.(current := name, categories := st.categories[name := []], order := st.order + [name]))
  {
    FirstSeenAppend(HeaderNames(scan, k - 1), name);
    GroupedNewKey(st.milestones, CategoryOf, st.categories, st.order, name);
  }

  lemma EntryTracks(scan: seq<Scanned>, k: nat, st: ParseState, text: string)
    requires 0 < k <= |scan| && Tracks(scan, k - 1, st)
    requires scan[k - 1].kind == Entry(text) && st.current in st.categories
    ensures Step(st, scan[k - 1], k).Ok?
    ensures Tracks(scan, k, Step(st, scan[k - 1], k).value)
  {
    var m := Milestone(text, st.current, scan[k - 1].line, k);
    GroupedAppend(st.milestones, CategoryOf, st.categories, st.order, m);
  }

  /** What `_parse` computes. It fails exactly when some entry has no header
      above it, and then on the first such line, naming the default category
      (which no header has registered). Otherwise the milestones are the
      entries in file order, each under the header above it; the buckets are
      keyed by the header names in order of first appearance, each holding
      its milestones in file order; and the running category is the last
      header's name. */
  lemma {:induction false} ParseMeaning(scan: seq<Scanned>, k: nat)
    requires k <= |scan|
    ensures ParseUpTo(scan, k).Err? <==> FirstOrphan(scan, k).Some?
    ensures ParseUpTo(scan, k).Err? ==> ParseUpTo(scan, k).error == MissingCategory(Uncategorized, FirstOrphan(scan, k).value + 1)
    ensures ParseUpTo(scan, k).Ok? ==> Tracks(scan, k, ParseUpTo(scan, k).value)
  {
    if k > 0 {
      ParseMeaning(scan, k - 1);
      var prior := ParseUpTo(scan, k - 1);
      if prior.Ok? {
        StepFails(scan, k, prior.value);
        if Step(prior.value, scan[k - 1], k).Ok? {
          StepTracks(scan, k, prior.value);
        }
      }
    }
  }

  /** Once a line has failed, later lines change nothing. */
  lemma {:induction false} FailurePersists(scan: seq<Scanned>, k: nat, m: nat)
    requires k <= m <= |scan| && ParseUpTo(scan, k).Err?
    ensures ParseUpTo(scan, m) == ParseUpTo(scan, k)
  {
    if k < m {
      FailurePersists(scan, k, m - 1);
    }
  }

  /** A whitespace-only line changes nothing: no milestone, same category. */
  lemma BlankLineIgnored(lines: seq<string>, k: nat)
    requires 0 < k <= |lines| && AllSpace(lines[k - 1])
    ensures ParseUpTo(Scan(lines), k) == ParseUpTo(Scan(lines), k - 1)
    ensures Expected(Scan(lines), k) == Expected(Scan(lines), k - 1)
    ensures LastHeader(Scan(lines), k) == LastHeader(Scan(lines), k - 1)
  {
    ClassifyShape(lines[k - 1]);
  }

  /** Each expected milestone comes from an entry line: its number is that
      line's 1-based position, its text is that entry's text and its raw line
      is that line without trailing whitespace (see `Scan`). */
  lemma {:induction false} ExpectedLines(scan: seq<Scanned>, k: nat)
    requires k <= |scan|
    ensures forall a :: 0 <= a < |Expected(scan, k)| ==>
      && 1 <= Expected(scan, k)[a].lineNumber <= k
      && scan[Expected(scan, k)[a].lineNumber - 1] == Scanned(Entry(Expected(scan, k)[a].text), Expected(scan, k)[a].rawLine)
  {
    if k > 0 {
      ExpectedLines(scan, k - 1);
    }
  }

  /** The milestones come in file order: line numbers strictly increase. */
  lemma {:induction false} ExpectedOrdered(scan: seq<Scanned>, k: nat)
    requires k <= |scan|
    ensures forall a :: 0 <= a < |Expected(scan, k)| ==> Expected(scan, k)[a].lineNumber <= k
    ensures forall a, b :: 0 <= a < b < |Expected(scan, k)| ==>
      Expected(scan, k)[a].lineNumber < Expected(scan, k)[b].lineNumber
  {
    if k > 0 {
      ExpectedOrdered(scan, k - 1);
    }
  }

  /** `get_random_milestone`'s errors, all `ValueError`s. */
  datatype PickError =
    | NoMilestones
    | CategoryNotFound(category: string, available: seq<string>)
    | EmptyCategory(category: string)

  class MilestoneParser {
    var milestones: seq<Milestone>
    var categories: map<string, seq<Milestone>>
    /** The key order of `categories`. */
    var categoryOrder: seq<string>

    ghost predicate Valid()
      reads this
    {
      Grouped(milestones, CategoryOf, categories, categoryOrder)
    }

    constructor()
      ensures milestones == [] && categories == map[] && categoryOrder == []
      ensures Valid()
    {
      milestones := [];
      categories := map[];
      categoryOrder := [];
    }

    /** `MilestoneParser(path)`: a parser over the file's lines, or the
        error its `_parse` raises. */
    static method FromLines(lines: seq<string>) returns (r: Result<MilestoneParser, ParseError>)
      ensures r.Err? <==> exists i :: 0 <= i < |lines| && Orphan(Scan(lines), i)
      ensures r.Err? ==> r.error == MissingCategory(Uncategorized, FirstOrphan(Scan(lines), |lines|).value + 1)
      ensures r.Ok? ==> fresh(r.value) && r.value.Valid()
      ensures r.Ok? ==> r.value.milestones == Expected(Scan(lines), |lines|)
      ensures r.Ok? ==> r.value.categoryOrder == FirstSeen(HeaderNames(Scan(lines), |lines|))
    {
      var parser := new MilestoneParser();
      var failure := parser.Parse(lines);
      ParseMeaning(Scan(lines), |lines|);
      if failure.Some? {
        return Err(failure.value);
      }
      return Ok(parser);
    }

    /** `_parse` over the lines of the file. */
    method Parse(lines: seq<string>) returns (failure: Option<ParseError>)
      requires milestones == [] && categories == map[] && categoryOrder == []
      modifies this
      ensures failure.Some? <==> ParseUpTo(Scan(lines), |lines|).Err?
      ensures failure.Some? ==> ParseUpTo(Scan(lines), |lines|) == Err(failure.value)
      ensures failure.None? ==> var st := ParseUpTo(Scan(lines), |lines|).value;
        milestones == st.milestones && categories == st.categories && categoryOrder == st.order
    {
      var current := Uncategorized;
      var lineNumber := 0;
      while lineNumber < |lines|
        invariant lineNumber <= |lines|
        invariant ParseUpTo(Scan(lines), lineNumber) == Ok(ParseState(milestones, categories, categoryOrder, current))
      {
        var raw := lines[lineNumber];
        lineNumber := lineNumber + 1;
        match Classify(raw)
        case Blank =>
        case Skipped =>
        case Header(name) =>
          current := name;
          if current !in categories {
            categories := categories[current := []];
            categoryOrder := categoryOrder + [current];
          }
        case Entry(text) =>
          var m := Milestone(text, current, RStrip(raw), lineNumber);
          milestones := milestones + [m];
          if current !in categories {
            FailurePersists(Scan(lines), lineNumber, |lines|);
            return Some(MissingCategory(current, lineNumber));
          }
          categories := categories[current := categories[current] + [m]];
      }
      return None;
    }

    /** The pool a pick draws from: the named category's bucket, or all. */
    function Pool(category: Option<string>): seq<Milestone>
      reads this
      requires Requested(category) ==> category.value in categories
    {
      if Requested(category) then categories[category.value] else milestones
    }

    /** `get_random_milestone(weighted, category)` with its random number
        made the argument `draw`. */
    function RandomMilestone(weighted: bool, category: Option<string>, draw: nat): (r: Result<Milestone, PickError>)
      reads this
      ensures r == Err(NoMilestones) <==> milestones == []
      ensures r.Err? && r.error.CategoryNotFound? <==>
        milestones != [] && Requested(category) && category.value !in categories
      ensures r.Err? && r.error.CategoryNotFound? ==> r.error == CategoryNotFound(category.value, categoryOrder)
      ensures r.Err? && r.error.EmptyCategory? <==>
        milestones != [] && Requested(category) && category.value in categories && categories[category.value] == []
      ensures r.Err? && r.error.EmptyCategory? ==> r.error == EmptyCategory(category.value)
      ensures r.Ok? ==> r.value in Pool(category)
      ensures r.Ok? ==> Pool(category) != [] && r.value == Pick(Pool(category), weighted, draw)
      ensures Valid() && r.Ok? ==> r.value in milestones
      ensures Valid() && r.Ok? && Requested(category) ==> r.value.category == category.value
    {
      if milestones == [] then Err(NoMilestones)
      else if Requested(category) && category.value !in categories then
        Err(CategoryNotFound(category.value, categoryOrder))
      else
        var pool := Pool(category);
        if pool == [] then Err(EmptyCategory(category.value))
        else Ok(Pick(pool, weighted, draw))
    }

    /** `get_categories()`. */
    function Categories(): (names: seq<string>)
      reads this
      ensures Valid() ==> Distinct(names) && forall c :: c in names <==> c in categories
    {
      categoryOrder
    }

    /** `get_category_stats()`. */
    function CategoryStats(): (stats: map<string, nat>)
      reads this
      ensures stats.Keys == categories.Keys
      ensures forall c :: c in stats ==> stats[c] == |categories[c]|
      ensures Valid() ==> (forall c :: c in Categories() ==> c in stats) && SumCounts(Categories(), stats) == Length()
    {
      assert Valid() ==> SumCounts(categoryOrder, Stats(categories)) == |milestones| by {
        if Valid() {
          StatsSumToTotal(milestones, CategoryOf, categories, categoryOrder);
        }
      }
      Stats(categories)
    }

    /** `len(parser)`. */
    function Length(): nat
      reads this
    {
      |milestones|
    }
  }
}
