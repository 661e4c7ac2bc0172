/**
 The JVM flag file (`jvm_args.txt`) as a sequence of text lines: how a fresh
 file is written, how the editor reads it into four sections, how it finds
 the recorded Java version, how it writes the user's selection back, and the
 active-flags view.
 */
module JvmArgsFile {
  import opened Optional
  import opened Text
  import opened JavaVersion

  // ---------------------------------------------------------------------------
  // Flag text
  // ---------------------------------------------------------------------------

  /** `normalize(flag)`: strip whitespace, then drop every carriage return. */
  function Normalize(flag: string): (r: string)
    ensures '\r' !in r
    ensures r == [] || (!IsSpace(r[0]) && !IsSpace(r[|r| - 1]))
  {
    var t := Strip(flag);
    if t == [] then []
    else
      RemoveCharKeepsEnds(t, '\r');
      RemoveChar(t, '\r')
  }

  /** Normalizing twice is normalizing once. */
  lemma NormalizeIdempotent(flag: string)
    ensures Normalize(Normalize(flag)) == Normalize(flag)
  {
    var r := Normalize(flag);
    StripTrimmed(r);
    RemoveAbsentChar(r, '\r');
    if r != [] {
      assert Normalize(r) == RemoveChar(Strip(r), '\r');
    }
  }

  /** Text that is already trimmed and free of carriage returns is left alone. */
  lemma NormalizeClean(f: string)
    requires f == [] || (!IsSpace(f[0]) && !IsSpace(f[|f| - 1]))
    requires '\r' !in f
    ensures Normalize(f) == f
  {
    StripTrimmed(f);
    RemoveAbsentChar(f, '\r');
  }

  // ---------------------------------------------------------------------------
  // The recorded Java version (lines 52-62 of the editor)
  // ---------------------------------------------------------------------------

  /** The line naming the recorded version contains this, case-insensitively. */
  predicate NamesVersion(line: string)
  {
    Contains(Lower(line), "java version:")
  }

  /**
   The scan for the recorded version: the first line naming it decides; its
   second `:`-separated field, stripped, is the version. `None` is the
   program's `None`: no such line.
   */
  function RecordedVersion(lines: seq<string>): (r: Option<string>)
    ensures r.Some? ==> exists k :: 0 <= k < |lines| && NamesVersion(lines[k])
    ensures (forall k :: 0 <= k < |lines| ==> !NamesVersion(lines[k])) ==> r.None?
  {
    if |lines| == 0 then None
    else if NamesVersion(lines[0]) then
      ContainsChar(Lower(lines[0]), "java version:", 12);
      LowerKeepsColon(lines[0]);
      Some(Strip(SecondField(lines[0], ':')))
    else
      var r := RecordedVersion(lines[1..]);
      assert forall k :: 1 <= k < |lines| ==> lines[k] == lines[1..][k - 1];
      r
  }

  /** A line that does not name the version, then one that does: the second decides. */
  lemma RecordedSecond(ls: seq<string>)
    requires |ls| >= 2 && !NamesVersion(ls[0]) && NamesVersion(ls[1])
    ensures ':' in ls[1]
    ensures RecordedVersion(ls) == Some(Strip(SecondField(ls[1], ':')))
  {
    assert ls[1..][0] == ls[1];
    ContainsChar(Lower(ls[1]), "java version:", 12);
    LowerKeepsColon(ls[1]);
  }

  /** Lowering leaves `:` where it is. */
  lemma LowerKeepsColon(s: string)
    requires ':' in Lower(s)
    ensures ':' in s
  {
    var i :| 0 <= i < |Lower(s)| && Lower(s)[i] == ':';
    assert s[i] == ':';
  }

  /** Lines that do not name the version are skipped by the scan. */
  lemma RecordedVersionSkip(pre: seq<string>, rest: seq<string>)
    requires forall k :: 0 <= k < |pre| ==> !NamesVersion(pre[k])
    ensures RecordedVersion(pre + rest) == RecordedVersion(rest)
  {
    if |pre| > 0 {
      assert (pre + rest)[1..] == pre[1..] + rest;
      RecordedVersionSkip(pre[1..], rest);
    } else {
      assert pre + rest == rest;
    }
  }

  /**
   Wherever it stands, the first line naming the version decides: the
   recorded version is the stripped text between its first and second `:`.
   */
  lemma {:induction false} RecordedFirst(ls: seq<string>, k: int)
    requires 0 <= k < |ls| && NamesVersion(ls[k])
    requires forall j :: 0 <= j < k ==> !NamesVersion(ls[j])
    ensures ':' in ls[k]
    ensures RecordedVersion(ls) == Some(Strip(SecondField(ls[k], ':')))
  {
    if k == 0 {
      RecordedHead(ls);
    } else {
      var tail := ls[1..];
      assert !NamesVersion(ls[0]);
      assert RecordedVersion(ls) == RecordedVersion(tail);
      forall j | 0 <= j < k - 1
        ensures !NamesVersion(tail[j])
      {
        assert tail[j] == ls[j + 1];
      }
      assert tail[k - 1] == ls[k];
      RecordedFirst(tail, k - 1);
    }
  }

  /** A first line naming the version decides at once. */
  lemma RecordedHead(ls: seq<string>)
    requires |ls| > 0 && NamesVersion(ls[0])
    ensures ':' in ls[0]
    ensures RecordedVersion(ls) == Some(Strip(SecondField(ls[0], ':')))
  {
    ContainsChar(Lower(ls[0]), "java version:", 12);
    LowerKeepsColon(ls[0]);
  }

  // ---------------------------------------------------------------------------
  // Line classification (the parse loop's tests, in its order)
  // ---------------------------------------------------------------------------

  /** The four sections of the file; flags before any header belong to `Others`. */
  datatype Section = GarbageCollector | MemoryConfig | PerformanceFlags | Others

  /** What one line of the file is to the parser. */
  datatype LineKind =
    | Blank
    | Marker(section: Section)
    | Flag(flag: string, active: bool)
    | Other

  /** The section header a lowered line names, tested in the program's order. */
  function MarkerOf(lower: string): Option<Section>
  {
    if Contains(lower, "garbage collector") then Some(GarbageCollector)
    else if Contains(lower, "memory config") then Some(MemoryConfig)
    else if Contains(lower, "performance flags") then Some(PerformanceFlags)
    else if Contains(lower, "others") then Some(Others)
    else None
  }

  /** The flag test both loops use: the stripped line starts with `-` or `#-`. */
  predicate FlagShaped(s: string)
  {
    StartsWith(s, "-") || StartsWith(s, "#-")
  }

  /** A flag-shaped text starts with `-` (active) or `#` (commented). */
  lemma FlagShapedHead(s: string)
    requires FlagShaped(s)
    ensures s != [] && (s[0] == '-' || s[0] == '#')
    ensures StartsWith(s, "-") <==> s[0] == '-'
  {
    var d, h := "-", "#-";
    if StartsWith(s, d) {
      assert s[..1][0] == s[0];
    } else {
      assert StartsWith(s, h);
      assert s[..2][0] == s[0];
    }
    if s[0] == '-' {
      assert s[..1] == d;
    }
  }

  /** The canonical text of a flag-shaped stripped line: `normalize(stripped.lstrip("#"))`. */
  function CleanFlag(s: string): string
  {
    Normalize(LStripChar(s, '#'))
  }

  /** A flag-shaped line's canonical text starts with `-` and is already normalized. */
  lemma CleanFlagShape(s: string)
    requires FlagShaped(s) && !IsSpace(s[|s| - 1])
    ensures CleanFlag(s) != [] && CleanFlag(s)[0] == '-'
    ensures Normalize(CleanFlag(s)) == CleanFlag(s)
  {
    var u := LStripChar(s, '#');
    LStripFlag(s);
    NormalizeDashed(u);
  }

  lemma LStripFlag(s: string)
    requires FlagShaped(s) && !IsSpace(s[|s| - 1])
    ensures LStripChar(s, '#') != [] && LStripChar(s, '#')[0] == '-'
    ensures !IsSpace(LStripChar(s, '#')[|LStripChar(s, '#')| - 1])
  {
    FlagShapedHead(s);
    if s[0] == '#' {
      HashThenDash(s);
      LStripHashDash(s);
      var t := s[1..];
      assert t[|t| - 1] == s[|s| - 1];
    }
  }

  /** A commented flag-shaped text has `-` right after its `#`. */
  lemma HashThenDash(s: string)
    requires FlagShaped(s) && s[0] == '#'
    ensures |s| >= 2 && s[1] == '-'
  {
    assert s[..2][1] == s[1];
  }

  /** Stripping `#`s from `#-...` removes exactly the one `#`. */
  lemma LStripHashDash(s: string)
    requires |s| >= 2 && s[0] == '#' && s[1] == '-'
    ensures LStripChar(s, '#') == s[1..]
  {
    assert s[1..][0] == '-';
  }

  lemma NormalizeDashed(u: string)
    requires u != [] && u[0] == '-' && !IsSpace(u[|u| - 1])
    ensures Normalize(u) != [] && Normalize(u)[0] == '-'
    ensures Normalize(Normalize(u)) == Normalize(u)
  {
    StripTrimmed(u);
    RemoveCharKeepsEnds(u, '\r');
    assert Normalize(u) == RemoveChar(u, '\r');
    NormalizeIdempotent(u);
  }

  /**
   One line as the parse loop sees it: blank lines are skipped; a line
   naming a section header switches section (checked first, so it is never
   a flag); a line starting with `-` (active) or `#-` (commented) is a flag;
   anything else is ignored.
   */
  function Classify(line: string): (k: LineKind)
    ensures k.Blank? <==> Strip(line) == []
    ensures k.Flag? ==> FlagShaped(Strip(line)) && k.flag != [] && k.flag[0] == '-'
    ensures k.Flag? ==> Normalize(k.flag) == k.flag
    ensures k.Flag? ==> (k.active <==> StartsWith(Strip(line), "-"))
  {
    var s := Strip(line);
    if s == [] then Blank
    else match MarkerOf(Lower(s))
      case Some(sec) => Marker(sec)
      case None =>
        if FlagShaped(s) then
          CleanFlagShape(s);
          Flag(CleanFlag(s), StartsWith(s, "-"))
        else Other
  }

  lemma ClassifyBlankLine(line: string)
    requires Strip(line) == []
    ensures Classify(line) == Blank
  {
  }

  /** A line whose stripped text names a section header switches section. */
  lemma ClassifyMarkerLine(line: string, t: string, sec: Section)
    requires Strip(line) == t && t != [] && MarkerOf(Lower(t)) == Some(sec)
    ensures Classify(line) == Marker(sec)
  {
  }

  /** A flag-shaped line that names no header is a flag. */
  lemma ClassifyFlagLine(line: string, t: string)
    requires Strip(line) == t && t != [] && MarkerOf(Lower(t)) == None && FlagShaped(t)
    ensures Classify(line) == Flag(CleanFlag(t), StartsWith(t, "-"))
  {
  }

  /** A flag line's flag is the canonical text of its stripped line. */
  lemma ClassifyFlagText(line: string)
    requires Classify(line).Flag?
    ensures Classify(line).flag == CleanFlag(Strip(line))
  {
    var t := Strip(line);
    if t != [] && MarkerOf(Lower(t)) == None && FlagShaped(t) {
      ClassifyFlagLine(line, t);
    }
  }

  /** A line that is neither blank, a header nor flag-shaped is ignored. */
  lemma ClassifyOtherLine(line: string, t: string)
    requires Strip(line) == t && t != [] && MarkerOf(Lower(t)) == None && !FlagShaped(t)
    ensures Classify(line) == Other
  {
  }

  // ---------------------------------------------------------------------------
  // Parsing (lines 103-141 of the editor)
  // ---------------------------------------------------------------------------

  /** The option lists of the four sections and the active flags, each in file order. */
  datatype FlagSections = FlagSections(
    gc: seq<string>,
    memory: seq<string>,
    performance: seq<string>,
    others: seq<string>,
    active: seq<string>)

  const NoFlags := FlagSections([], [], [], [], [])

  /** Every option of every section, in section order. */
  function AllOptions(p: FlagSections): seq<string>
  {
    p.gc + p.memory + p.performance + p.others
  }

  /** `f` placed in front of section `sec`'s list (and of the active list when active). */
  function AddFlag(sec: Section, f: string, active: bool, rest: FlagSections): (r: FlagSections)
    ensures forall x :: x in AllOptions(r) <==> x == f || x in AllOptions(rest)
    ensures r.active == if active then [Normalize(f)] + rest.active else rest.active
  {
    var act := if active then [Normalize(f)] + rest.active else rest.active;
    match sec
    case GarbageCollector => rest.(gc := [f] + rest.gc, active := act)
    case MemoryConfig => rest.(memory := [f] + rest.memory, active := act)
    case PerformanceFlags => rest.(performance := [f] + rest.performance, active := act)
    case Others => rest.(others := [f] + rest.others, active := act)
  }

  /** The parse loop from the current section `sec` onward. */
  function ParseFrom(lines: seq<string>, sec: Section): (r: FlagSections)
    ensures forall f :: f in r.active ==> f in AllOptions(r)
    decreases |lines|
  {
    if |lines| == 0 then NoFlags
    else
      var k := Classify(lines[0]);
      match k
      case Blank => ParseFrom(lines[1..], sec)
      case Other => ParseFrom(lines[1..], sec)
      case Marker(s) => ParseFrom(lines[1..], s)
      case Flag(f, act) =>
        var rest := ParseFrom(lines[1..], sec);
        assert Normalize(f) == f;
        AddFlag(sec, f, act, rest)
  }

  /** The option list of one section. */
  function SectionList(p: FlagSections, sec: Section): seq<string>
  {
    match sec
    case GarbageCollector => p.gc
    case MemoryConfig => p.memory
    case PerformanceFlags => p.performance
    case Others => p.others
  }

  /** `p` with section `sec`'s list replaced by `fs`. */
  function WithList(p: FlagSections, sec: Section, fs: seq<string>): (r: FlagSections)
    ensures SectionList(r, sec) == fs && r.active == p.active
    ensures forall s :: s != sec ==> SectionList(r, s) == SectionList(p, s)
  {
    match sec
    case GarbageCollector => p.(gc := fs)
    case MemoryConfig => p.(memory := fs)
    case PerformanceFlags => p.(performance := fs)
    case Others => p.(others := fs)
  }

  lemma WithListTwice(p: FlagSections, sec: Section, a: seq<string>, b: seq<string>)
    ensures WithList(WithList(p, sec, a), sec, b) == WithList(p, sec, b)
  {
  }

  /** Adding a commented flag only extends its section's list at the front. */
  lemma AddInactive(sec: Section, f: string, rest: FlagSections)
    ensures AddFlag(sec, f, false, rest) == WithList(rest, sec, [f] + SectionList(rest, sec))
  {
  }

  /** A line that is not a flag adds nothing; a header line switches the section. */
  lemma ParseSkip(line: string, rest: seq<string>, sec: Section)
    requires !Classify(line).Flag?
    ensures ParseFrom([line] + rest, sec)
      == ParseFrom(rest, if Classify(line).Marker? then Classify(line).section else sec)
  {
    assert ([line] + rest)[1..] == rest;
  }

  /** A flag line puts its flag in front of the current section's list. */
  lemma ParseFlag(line: string, rest: seq<string>, sec: Section)
    requires Classify(line).Flag?
    ensures ParseFrom([line] + rest, sec)
      == AddFlag(sec, Classify(line).flag, Classify(line).active, ParseFrom(rest, sec))
  {
    assert ([line] + rest)[1..] == rest;
  }

  /** The parse of a whole file; flags before any header land in `Others`. */
  function ParseFlagFile(lines: seq<string>): (r: FlagSections)
    ensures forall f :: f in r.active ==> f in AllOptions(r)
  {
    ParseFrom(lines, Others)
  }
}
