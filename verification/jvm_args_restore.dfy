/**
 A fresh flag file (`restore_jvm_args_file`) and what the editor reads back
 from it: the four section lists and the recorded Java version.
 */
module JvmArgsRestore {
  import opened Optional
  import opened Text
  import opened Numerals
  import opened JavaVersion
  import opened JvmArgsFile

  // ---------------------------------------------------------------------------
  // The text written by the restorer
  // ---------------------------------------------------------------------------

  /** The warning comment that opens every restored file (with its trailing blank). */
  const HeaderLine := "# N\U{e3}o apague a linha \"java version\"! \n"

  /** A section header line: `# --- <name> ---`. */
  function SectionHeader(name: string): string
  {
    HeaderText(name) + "\n"
  }

  function HeaderText(name: string): string
  {
    "# --- " + name + " ---"
  }

  const GcName := "Garbage Collector"
  const MemoryName := "Memory Config"
  const PerformanceName := "Performance Flags"
  const OthersName := "Others"

  const GcHeader := SectionHeader(GcName)
  const MemoryHeader := SectionHeader(MemoryName)
  const PerformanceHeader := SectionHeader(PerformanceName)
  const OthersHeader := SectionHeader(OthersName)

  /** The line that records the Java version a file was written for. */
  function VersionLine(v: string): string
  {
    "#java version: " + v + "\n"
  }

  /**
   The restorer's single write: the header, the version line and a blank,
   then each section header followed by `#` + `"\n#".join(flags)` and a blank,
   and finally an empty Others section.
   */
  function RestoreText(v: string, l: FlagLists): string
  {
    HeaderLine + ("#java version: " + v + "\n\n" + (GcHeader + SectionText(l)))
  }

  // ---------------------------------------------------------------------------
  // The same file as a list of lines
  // ---------------------------------------------------------------------------

  /** One commented-out line per flag. */
  function CommentedFlags(fs: seq<string>): (r: seq<string>)
    ensures |r| == |fs|
    ensures forall k :: 0 <= k < |fs| ==> r[k] == "#" + fs[k] + "\n"
  {
    if |fs| == 0 then [] else ["#" + fs[0] + "\n"] + CommentedFlags(fs[1..])
  }

  /** A section body: the commented flags, or a lone `#` when there are none. */
  function CommentedBlock(fs: seq<string>): seq<string>
  {
    if |fs| == 0 then ["#\n"] else CommentedFlags(fs)
  }

  /**
   The lines of a restored file, as an independent description:
   header, version, blank, then each section header with its commented flags
   and a blank, and the Others header last.
   */
  function RestoreLines(v: string, l: FlagLists): seq<string>
  {
    [HeaderLine, VersionLine(v), "\n", GcHeader] + SectionLines(l)
  }

  /** A flag the restorer can write and the parser reads back as itself. */
  predicate PlainFlag(f: string)
  {
    f != [] && f[0] == '-' && NoSpace(f) && !Contains(Lower(f), "others")
  }

  predicate PlainFlags(fs: seq<string>)
  {
    forall k :: 0 <= k < |fs| ==> PlainFlag(fs[k])
  }

  predicate PlainLists(l: FlagLists)
  {
    PlainFlags(l.gc) && PlainFlags(l.memory) && PlainFlags(l.performance)
  }

  /** Version text as the program holds it: digits and points, nothing else. */
  predicate VersionText(v: string)
  {
    v != [] && forall i :: 0 <= i < |v| ==> IsDigit(v[i]) || v[i] == '.'
  }

  lemma BucketVersionText(b: Bucket)
    ensures VersionText(Name(b))
  {
  }

  /** The commented lines of a non-empty list spell `#` + `"\n#".join(fs)` + `"\n"`. */
  lemma {:induction false} CommentedFlagsText(fs: seq<string>)
    requires |fs| > 0
    ensures Concat(CommentedFlags(fs)) == "#" + Join("\n#", fs) + "\n"
    decreases |fs|
  {
    if |fs| == 1 {
      assert CommentedFlags(fs) == ["#" + fs[0] + "\n"];
    } else {
      CommentedFlagsText(fs[1..]);
      assert CommentedFlags(fs) == ["#" + fs[0] + "\n"] + CommentedFlags(fs[1..]);
      assert Join("\n#", fs) == fs[0] + "\n#" + Join("\n#", fs[1..]);
    }
  }

  lemma CommentedBlockText(fs: seq<string>)
    ensures Concat(CommentedBlock(fs)) == "#" + Join("\n#", fs) + "\n"
  {
    if |fs| > 0 {
      CommentedFlagsText(fs);
    } else {
      assert Concat(["#\n"]) == "#\n";
    }
  }

  /** A two-line piece followed by `rest`. */
  lemma ConcatPair(x: string, y: string, rest: seq<string>)
    ensures Concat([x, y] + rest) == x + (y + Concat(rest))
  {
    assert [x, y] + rest == [x] + ([y] + rest);
    ConcatCons(x, [y] + rest);
    ConcatCons(y, rest);
  }

  /** A section body followed by a blank line and `rest`. */
  lemma BlockThenBlank(fs: seq<string>, h: string, rest: seq<string>)
    ensures Concat(CommentedBlock(fs) + (["\n", h] + rest))
      == "#" + Join("\n#", fs) + "\n\n" + (h + Concat(rest))
  {
    ConcatAppend(CommentedBlock(fs), ["\n", h] + rest);
    CommentedBlockText(fs);
    ConcatPair("\n", h, rest);
    var j := Join("\n#", fs);
    assert "#" + j + "\n" + ("\n" + (h + Concat(rest))) == "#" + j + "\n\n" + (h + Concat(rest));
  }

  /** The lines after the garbage-collector header, and the text they spell. */
  function SectionLines(l: FlagLists): seq<string>
  {
    CommentedBlock(l.gc)
    + (["\n", MemoryHeader]
    + (CommentedBlock(l.memory)
    + (["\n", PerformanceHeader]
    + (CommentedBlock(l.performance)
    + ["\n", OthersHeader]))))
  }

  function SectionText(l: FlagLists): string
  {
    "#" + Join("\n#", l.gc) + "\n\n"
    + (MemoryHeader
    + ("#" + Join("\n#", l.memory) + "\n\n"
    + (PerformanceHeader
    + ("#" + Join("\n#", l.performance)
    + "\n\n" + OthersHeader))))
  }

  lemma PerformanceTail(l: FlagLists)
    ensures Concat(CommentedBlock(l.performance) + ["\n", OthersHeader])
      == "#" + Join("\n#", l.performance) + "\n\n" + OthersHeader
  {
    var jp := Join("\n#", l.performance);
    assert ["\n", OthersHeader] + [] == ["\n", OthersHeader];
    BlockThenBlank(l.performance, OthersHeader, []);
    assert "#" + jp + "\n\n" + (OthersHeader + Concat([])) == "#" + jp + "\n\n" + OthersHeader;
  }

  lemma SectionLinesText(l: FlagLists)
    ensures Concat(SectionLines(l)) == SectionText(l)
  {
    var t2 := CommentedBlock(l.performance) + ["\n", OthersHeader];
    PerformanceTail(l);
    var t4 := CommentedBlock(l.memory) + (["\n", PerformanceHeader] + t2);
    BlockThenBlank(l.memory, PerformanceHeader, t2);
    BlockThenBlank(l.gc, MemoryHeader, t4);
  }

  /** Concatenating the described lines gives exactly the restorer's text. */
  lemma RestoreLinesText(v: string, l: FlagLists)
    ensures Concat(RestoreLines(v, l)) == RestoreText(v, l)
  {
    var t6 := SectionLines(l);
    SectionLinesText(l);
    ConcatFour(HeaderLine, VersionLine(v), "\n", GcHeader, t6);
    VersionJoin("#java version: ", v, GcHeader + SectionText(l));
  }

  /** Four lines in front of `rest`. */
  lemma ConcatFour(a: string, b: string, c: string, d: string, rest: seq<string>)
    ensures Concat([a, b, c, d] + rest) == a + (b + (c + (d + Concat(rest))))
  {
    assert [a, b, c, d] + rest == [a, b] + ([c, d] + rest);
    ConcatPair(a, b, [c, d] + rest);
    ConcatPair(c, d, rest);
  }

  /** The version line and the blank after it form one piece of the written text. */
  lemma VersionJoin(p: string, v: string, x: string)
    ensures (p + v + "\n") + ("\n" + x) == p + v + "\n\n" + x
  {
    assert "\n\n" == "\n" + "\n";
  }

  /** A line as the program writes it: complete, with no carriage return. */
  predicate WrittenLine(x: string)
  {
    IsLine(x) && EndsWith(x, "\n") && '\r' !in x
  }

  predicate AllWritten(ls: seq<string>)
  {
    forall k :: 0 <= k < |ls| ==> WrittenLine(ls[k])
  }

  lemma AllWrittenAppend(a: seq<string>, b: seq<string>)
    requires AllWritten(a) && AllWritten(b)
    ensures AllWritten(a + b)
  {
    forall k | 0 <= k < |a + b| ensures WrittenLine((a + b)[k]) {
      if k >= |a| {
        assert (a + b)[k] == b[k - |a|];
      }
    }
  }

  /** A line made of a one-character prefix, a body without line breaks, and `"\n"`. */
  lemma WrappedLine(pre: string, body: string)
    requires '\n' !in pre && '\r' !in pre
    requires forall i :: 0 <= i < |body| ==> body[i] != '\n' && body[i] != '\r'
    ensures WrittenLine(pre + body + "\n")
  {
    var x := pre + body + "\n";
    forall i | 0 <= i < |x| - 1 ensures x[i] != '\n' && x[i] != '\r' {
      if i >= |pre| {
        assert x[i] == body[i - |pre|];
      } else {
        assert x[i] == pre[i];
      }
    }
    assert x[|x| - 1..] == "\n";
  }

  lemma CommentedBlockWritten(fs: seq<string>)
    requires PlainFlags(fs)
    ensures AllWritten(CommentedBlock(fs))
  {
    if |fs| == 0 {
      WrappedLine("#", "");
      assert "#" + "" + "\n" == "#\n";
    } else {
      forall k | 0 <= k < |fs| ensures WrittenLine(CommentedFlags(fs)[k]) {
        assert PlainFlag(fs[k]);
        WrappedLine("#", fs[k]);
      }
    }
  }

  lemma HeaderLineWritten()
    ensures WrittenLine(HeaderLine)
  {
    var h := HeaderLine;
    assert h[|h| - 1..] == "\n";
  }

  /** A section header is one complete line when its name has no line break. */
  lemma SectionHeaderWritten(name: string)
    requires '\n' !in name && '\r' !in name
    ensures WrittenLine(SectionHeader(name))
  {
    WrappedLine("#", " --- " + name + " ---");
    assert SectionHeader(name) == "#" + (" --- " + name + " ---") + "\n";
  }

  lemma NameNoBreak(name: string)
    requires name == GcName || name == MemoryName || name == PerformanceName || name == OthersName
    ensures '\n' !in name && '\r' !in name
  {
  }

  lemma HeaderLinesWritten()
    ensures WrittenLine(GcHeader) && WrittenLine(MemoryHeader)
    ensures WrittenLine(PerformanceHeader) && WrittenLine(OthersHeader) && WrittenLine("\n")
  {
    NameNoBreak(GcName);
    SectionHeaderWritten(GcName);
    NameNoBreak(MemoryName);
    SectionHeaderWritten(MemoryName);
    NameNoBreak(PerformanceName);
    SectionHeaderWritten(PerformanceName);
    NameNoBreak(OthersName);
    SectionHeaderWritten(OthersName);
    assert "\n"[0..] == "\n";
  }

  lemma SectionLinesWritten(l: FlagLists)
    requires PlainLists(l)
    ensures AllWritten(SectionLines(l))
  {
    HeaderLinesWritten();
    CommentedBlockWritten(l.gc);
    CommentedBlockWritten(l.memory);
    CommentedBlockWritten(l.performance);
    var t1 := ["\n", OthersHeader];
    var t2 := CommentedBlock(l.performance) + t1;
    AllWrittenAppend(CommentedBlock(l.performance), t1);
    var t3 := ["\n", PerformanceHeader] + t2;
    AllWrittenAppend(["\n", PerformanceHeader], t2);
    var t4 := CommentedBlock(l.memory) + t3;
    AllWrittenAppend(CommentedBlock(l.memory), t3);
    var t5 := ["\n", MemoryHeader] + t4;
    AllWrittenAppend(["\n", MemoryHeader], t4);
    AllWrittenAppend(CommentedBlock(l.gc), t5);
  }

  /** Every line of a restored file is one complete, carriage-return-free line. */
  lemma RestoreLinesAreLines(v: string, l: FlagLists)
    requires VersionText(v) && PlainLists(l)
    ensures AllWritten(RestoreLines(v, l))
  {
    HeaderLineWritten();
    HeaderLinesWritten();
    SectionLinesWritten(l);
    WrappedLine("#java version: ", v);
    AllWrittenAppend([HeaderLine, VersionLine(v), "\n", GcHeader], SectionLines(l));
  }

  /** Reading a restored file back yields exactly the described lines. */
  lemma ReadRestored(v: string, l: FlagLists)
    requires VersionText(v) && PlainLists(l)
    ensures ReadLines(RestoreText(v, l)) == RestoreLines(v, l)
  {
    RestoreLinesText(v, l);
    RestoreLinesAreLines(v, l);
    ReadWrittenLines(RestoreLines(v, l));
  }

  // ---------------------------------------------------------------------------
  // How the parser classifies each restored line
  // ---------------------------------------------------------------------------

  lemma ClassifyBlankAt(line: string)
    requires line == "\n"
    ensures Classify(line) == Blank
  {
    assert IsSpace('\n');
    ClassifyBlankLine(line);
  }

  /** A line starting with `#` and then anything but `-` is never a flag. */
  lemma CommentNotFlag(line: string)
    requires |line| >= 2 && line[0] == '#' && line[1] != '-'
    ensures !Classify(line).Flag?
  {
    CommentNotFlagShaped(line);
  }

  lemma CommentNotFlagShaped(line: string)
    requires |line| >= 2 && line[0] == '#' && line[1] != '-'
    ensures !FlagShaped(Strip(line))
  {
    var l := LStrip(line);
    assert !IsSpace(line[0]);
    assert l == line;
    var s := Strip(line);
    assert s == RStrip(l);
    assert s == line[..|s|];
    if |s| >= 2 {
      assert s[..2][1] == line[1];
    }
    if |s| >= 1 {
      assert s[..1][0] == '#';
    }
  }

  lemma SectionHeaderStrip(name: string)
    ensures Strip(SectionHeader(name)) == HeaderText(name)
  {
    var t := HeaderText(name);
    assert t[0] == '#' && t[|t| - 1] == '-';
    StripLine(t);
  }

  /** A header names the marker its lowered name spells. */
  lemma HeaderContains(name: string, m: string)
    requires Lower(name) == m
    ensures Contains(Lower(HeaderText(name)), m)
  {
    LowerAppend("# --- " + name, " ---");
    LowerAppend("# --- ", name);
    var l := Lower(HeaderText(name));
    assert l == Lower("# --- ") + m + Lower(" ---");
    assert l[6..][..|m|] == m;
    ContainsWitness(l, m, 6);
  }

  /** A header lacks a marker when its name lacks one of the marker's letters. */
  lemma HeaderLacks(name: string, m: string, k: nat)
    requires k < |m| && 'a' <= m[k] <= 'z'
    requires m[k] !in name && UpperChar(m[k]) !in name
    ensures !Contains(Lower(HeaderText(name)), m)
  {
    var t := HeaderText(name);
    assert forall c :: c in t ==> c in "# --- " || c in name || c in " ---";
    NotContainsLower(t, m, k);
  }

  lemma GcNameLower()
    ensures Lower(GcName) == "garbage collector"
  {
    LowerEq(GcName, "garbage collector");
  }

  lemma MemoryNameLower()
    ensures Lower(MemoryName) == "memory config"
  {
    LowerEq(MemoryName, "memory config");
  }

  lemma PerformanceNameLower()
    ensures Lower(PerformanceName) == "performance flags"
  {
    LowerEq(PerformanceName, "performance flags");
  }

  lemma OthersNameLower()
    ensures Lower(OthersName) == "others"
  {
    LowerEq(OthersName, "others");
  }

  /** `b` (of "garbage") occurs in neither case in the later names. */
  lemma MemoryNameLacks()
    ensures 'b' !in MemoryName && 'B' !in MemoryName
  {
  }

  /** Nor does `y` (of "memory") in the last two. */
  lemma PerformanceNameLacks()
    ensures 'b' !in PerformanceName && 'B' !in PerformanceName
    ensures 'y' !in PerformanceName && 'Y' !in PerformanceName
  {
  }

  /** Nor `f` (of "flags") in the last. */
  lemma OthersNameLacks()
    ensures 'b' !in OthersName && 'B' !in OthersName
    ensures 'y' !in OthersName && 'Y' !in OthersName
    ensures 'f' !in OthersName && 'F' !in OthersName
  {
  }

  lemma ClassifyGcHeader()
    ensures Classify(GcHeader) == Marker(GarbageCollector)
  {
    GcNameLower();
    HeaderContains(GcName, "garbage collector");
    SectionHeaderStrip(GcName);
    ClassifyMarkerLine(GcHeader, HeaderText(GcName), GarbageCollector);
  }

  lemma ClassifyMemoryHeader()
    ensures Classify(MemoryHeader) == Marker(MemoryConfig)
  {
    MemoryNameLacks();
    HeaderLacks(MemoryName, "garbage collector", 3);
    MemoryNameLower();
    HeaderContains(MemoryName, "memory config");
    SectionHeaderStrip(MemoryName);
    ClassifyMarkerLine(MemoryHeader, HeaderText(MemoryName), MemoryConfig);
  }

  lemma ClassifyPerformanceHeader()
    ensures Classify(PerformanceHeader) == Marker(PerformanceFlags)
  {
    PerformanceNameLacks();
    HeaderLacks(PerformanceName, "garbage collector", 3);
    HeaderLacks(PerformanceName, "memory config", 5);
    PerformanceNameLower();
    HeaderContains(PerformanceName, "performance flags");
    SectionHeaderStrip(PerformanceName);
    ClassifyMarkerLine(PerformanceHeader, HeaderText(PerformanceName), PerformanceFlags);
  }

  lemma ClassifyOthersHeader()
    ensures Classify(OthersHeader) == Marker(Others)
  {
    OthersNameLacks();
    HeaderLacks(OthersName, "garbage collector", 3);
    HeaderLacks(OthersName, "memory config", 5);
    HeaderLacks(OthersName, "performance flags", 12);
    OthersNameLower();
    HeaderContains(OthersName, "others");
    SectionHeaderStrip(OthersName);
    ClassifyMarkerLine(OthersHeader, HeaderText(OthersName), Others);
  }

  /** A restored flag line reads back as that flag, commented out. */
  lemma ClassifyCommentedFlag(f: string)
    requires PlainFlag(f)
    ensures Classify("#" + f + "\n") == Flag(f, false)
  {
    var t := "#" + f;
    CommentedFlagStrip(f);
    CommentedFlagNoMarker(f);
    CommentedFlagClean(f);
    assert t[..1][0] == '#';
    ClassifyFlagLine(t + "\n", t);
  }

  lemma CommentedFlagStrip(f: string)
    requires PlainFlag(f)
    ensures Strip("#" + f + "\n") == "#" + f
    ensures FlagShaped("#" + f)
  {
    var t := "#" + f;
    assert t[|t| - 1] == f[|f| - 1];
    StripLine(t);
    assert t[..2] == "#-";
  }

  lemma CommentedFlagNoMarker(f: string)
    requires PlainFlag(f)
    ensures MarkerOf(Lower("#" + f)) == None
  {
    var t := "#" + f;
    assert ' ' !in t by {
      forall i | 0 <= i < |t| ensures t[i] != ' ' {
        if i > 0 {
          assert t[i] == f[i - 1];
        }
      }
    }
    NotContainsLower(t, "garbage collector", 7);
    NotContainsLower(t, "memory config", 6);
    NotContainsLower(t, "performance flags", 11);
    LowerAppend("#", f);
    assert Lower("#") == ['#'];
    ContainsPrefixChar('#', Lower(f), "others");
  }

  lemma CommentedFlagClean(f: string)
    requires PlainFlag(f)
    ensures CleanFlag("#" + f) == f
  {
    var t := "#" + f;
    assert t[1..] == f;
    assert LStripChar(t, '#') == f;
    assert '\r' !in f by {
      forall i | 0 <= i < |f| ensures f[i] != '\r' {
        assert !IsSpace(f[i]);
      }
    }
    NormalizeClean(f);
  }

  lemma ClassifyLoneHash()
    ensures Classify("#\n") == Other
  {
    var t := "#";
    StripLine(t);
    assert Lower(t) == t;
    assert !FlagShaped(t);
    ClassifyOtherLine("#\n", t);
  }

  lemma HeaderLineNotFlag()
    ensures !Classify(HeaderLine).Flag?
  {
    assert HeaderLine[0] == '#' && HeaderLine[1] == ' ';
    CommentNotFlag(HeaderLine);
  }

  lemma VersionLineNotFlag(v: string)
    ensures !Classify(VersionLine(v)).Flag?
  {
    var x := VersionLine(v);
    assert x[0] == '#' && x[1] == 'j';
    CommentNotFlag(x);
  }

  // ---------------------------------------------------------------------------
  // Parsing a restored file
  // ---------------------------------------------------------------------------

  /** Commented flags land, in order and inactive, in front of the current section's list. */
  lemma {:induction false} ParseCommentedFlags(fs: seq<string>, rest: seq<string>, sec: Section)
    requires PlainFlags(fs)
    ensures var q := ParseFrom(rest, sec);
      ParseFrom(CommentedFlags(fs) + rest, sec) == WithList(q, sec, fs + SectionList(q, sec))
    decreases |fs|
  {
    var q := ParseFrom(rest, sec);
    if |fs| == 0 {
      assert CommentedFlags(fs) + rest == rest;
      assert fs + SectionList(q, sec) == SectionList(q, sec);
    } else {
      var tail := CommentedFlags(fs[1..]) + rest;
      var lq := SectionList(q, sec);
      var p := WithList(q, sec, fs[1..] + lq);
      var line := "#" + fs[0] + "\n";
      assert CommentedFlags(fs) == [line] + CommentedFlags(fs[1..]);
      AppendAssoc([line], CommentedFlags(fs[1..]), rest);
      var r := ParseFrom([line] + tail, sec);
      assert PlainFlag(fs[0]);
      ParseCommentedFlag(fs[0], tail, sec);
      ParseCommentedFlags(fs[1..], rest, sec);
      assert r == AddFlag(sec, fs[0], false, p);
      AddInactive(sec, fs[0], p);
      WithListTwice(q, sec, fs[1..] + lq, [fs[0]] + (fs[1..] + lq));
      ConsTail(fs, lq);
    }
  }

  lemma ParseCommentedFlag(f: string, rest: seq<string>, sec: Section)
    requires PlainFlag(f)
    ensures ParseFrom(["#" + f + "\n"] + rest, sec) == AddFlag(sec, f, false, ParseFrom(rest, sec))
  {
    ClassifyCommentedFlag(f);
    ParseFlag("#" + f + "\n", rest, sec);
  }

  /** A section body parses to its flags; a lone `#` adds nothing. */
  lemma ParseCommentedBlock(fs: seq<string>, rest: seq<string>, sec: Section)
    requires PlainFlags(fs)
    ensures var q := ParseFrom(rest, sec);
      ParseFrom(CommentedBlock(fs) + rest, sec) == WithList(q, sec, fs + SectionList(q, sec))
  {
    if |fs| == 0 {
      var q := ParseFrom(rest, sec);
      ClassifyLoneHash();
      ParseSkip("#\n", rest, sec);
      assert fs + SectionList(q, sec) == SectionList(q, sec);
    } else {
      ParseCommentedFlags(fs, rest, sec);
    }
  }

  /** A blank line and a section header switch to that section and add nothing. */
  lemma ParseBlankHeader(h: string, s: Section, rest: seq<string>, sec: Section)
    requires Classify(h) == Marker(s)
    ensures ParseFrom(["\n", h] + rest, sec) == ParseFrom(rest, s)
  {
    ClassifyBlankAt("\n");
    ConsTwo("\n", h, rest);
    ParseSkip("\n", [h] + rest, sec);
    ParseSkip(h, rest, sec);
  }

  /** The Performance body and the empty Others section parse to the performance list alone. */
  lemma ParsePerformanceTail(l: FlagLists)
    requires PlainLists(l)
    ensures ParseFrom(CommentedBlock(l.performance) + ["\n", OthersHeader], PerformanceFlags)
      == NoFlags.(performance := l.performance)
  {
    ClassifyOthersHeader();
    var t1 := ["\n", OthersHeader];
    ParseBlankHeader(OthersHeader, Others, [], PerformanceFlags);
    assert t1 == ["\n", OthersHeader] + [];
    ParseBlockAlone(l.performance, t1, PerformanceFlags);
  }

  /** A commented block followed by lines that hold no flag parses to that block's list alone. */
  lemma ParseBlockAlone(fs: seq<string>, rest: seq<string>, sec: Section)
    requires PlainFlags(fs)
    requires ParseFrom(rest, sec) == NoFlags
    ensures ParseFrom(CommentedBlock(fs) + rest, sec) == WithList(NoFlags, sec, fs)
  {
    ParseCommentedBlock(fs, rest, sec);
    assert fs + SectionList(NoFlags, sec) == fs;
  }

  /** The section lines of a restored file parse to the three lists and no active flag. */
  lemma ParseSectionLines(l: FlagLists)
    requires PlainLists(l)
    ensures ParseFrom(SectionLines(l), GarbageCollector)
      == FlagSections(l.gc, l.memory, l.performance, [], [])
  {
    ClassifyPerformanceHeader();
    ClassifyMemoryHeader();
    var t2 := CommentedBlock(l.performance) + ["\n", OthersHeader];
    ParsePerformanceTail(l);
    var p2 := NoFlags.(performance := l.performance);
    var t3 := ["\n", PerformanceHeader] + t2;
    ParseBlankHeader(PerformanceHeader, PerformanceFlags, t2, MemoryConfig);
    var t4 := CommentedBlock(l.memory) + t3;
    ParseCommentedBlock(l.memory, t3, MemoryConfig);
    var t5 := ["\n", MemoryHeader] + t4;
    ParseBlankHeader(MemoryHeader, MemoryConfig, t4, GarbageCollector);
    ParseCommentedBlock(l.gc, t5, GarbageCollector);
  }

  /** The whole restored file parses to the restorer's three lists, all inactive, and no Others. */
  lemma ParseRestoreLines(v: string, l: FlagLists)
    requires PlainLists(l)
    ensures ParseFlagFile(RestoreLines(v, l)) == FlagSections(l.gc, l.memory, l.performance, [], [])
  {
    HeaderLineNotFlag();
    VersionLineNotFlag(v);
    ClassifyBlankAt("\n");
    ClassifyGcHeader();
    ParseLeadFour(HeaderLine, VersionLine(v), "\n", GcHeader, SectionLines(l), Others);
    ParseSectionLines(l);
  }

  lemma ConsTwo<T>(a: T, b: T, t: seq<T>)
    ensures [a, b] + t == [a] + ([b] + t)
  {
  }

  lemma ConsFour<T>(a: T, b: T, c: T, d: T, t: seq<T>)
    ensures [a, b, c, d] + t == [a] + ([b] + ([c] + ([d] + t)))
  {
  }

  /** Three lines that are not flags, then a header: only the header's section is left over. */
  lemma ParseLeadFour(a: string, b: string, c: string, d: string, t: seq<string>, sec: Section)
    requires !Classify(a).Flag? && !Classify(b).Flag? && !Classify(c).Flag? && Classify(d).Marker?
    ensures ParseFrom([a, b, c, d] + t, sec) == ParseFrom(t, Classify(d).section)
  {
    ConsFour(a, b, c, d, t);
    var s1 := if Classify(a).Marker? then Classify(a).section else sec;
    ParseSkip(a, [b] + ([c] + ([d] + t)), sec);
    var s2 := if Classify(b).Marker? then Classify(b).section else s1;
    ParseSkip(b, [c] + ([d] + t), s1);
    var s3 := if Classify(c).Marker? then Classify(c).section else s2;
    ParseSkip(c, [d] + t, s2);
    ParseSkip(d, t, s3);
  }

  // ---------------------------------------------------------------------------
  // The recorded version read back
  // ---------------------------------------------------------------------------

  /** The warning line speaks of "java version" but without the colon, so the scan passes it. */
  lemma HeaderLineNamesNoVersion()
    ensures !NamesVersion(HeaderLine)
  {
    var h := HeaderLine;
    assert forall i :: 0 <= i < |h| ==> h[i] != ':';
    NotContainsLower(h, "java version:", 12);
  }

  const VersionLead := "#java version"

  lemma VersionLineNamesVersion(v: string)
    ensures NamesVersion(VersionLine(v))
  {
    var x := VersionLine(v);
    var l := Lower(x);
    assert x == VersionLead + (": " + v + "\n");
    assert l[1..][..13] == "java version:";
    ContainsWitness(l, "java version:", 1);
  }

  /** The second `:`-field of the version line is the version with its surrounding blank and line end. */
  lemma VersionLineField(v: string)
    requires VersionText(v)
    ensures SecondField(VersionLine(v), ':') == " " + v + "\n"
  {
    var lead := VersionLead;
    assert forall i :: 0 <= i < |lead| ==> lead[i] != ':';
    var x := VersionLine(v);
    var tail := ": " + v + "\n";
    assert x == lead + tail;
    IndexOfSkip(lead, tail, ':');
    assert IndexOf(x, ':') == 13;
    var rest := " " + v + "\n";
    assert x[14..] == rest;
    assert forall i :: 0 <= i < |rest| ==> rest[i] != ':';
    assert IndexOf(rest, ':') == |rest|;
  }

  /** The version field strips back to the version. */
  lemma VersionFieldStrip(v: string)
    requires VersionText(v)
    ensures Strip(" " + v + "\n") == v
  {
    assert IsSpace(' ');
    assert (" " + v + "\n")[1..] == v + "\n";
    assert v[0] != ' ' && v[|v| - 1] != ' ';
    StripLine(v);
  }

  /** A header line then a version line: the scan stops at the second line. */
  lemma RecordedLead(v: string, rest: seq<string>)
    requires VersionText(v)
    ensures RecordedVersion([HeaderLine, VersionLine(v)] + rest) == Some(v)
  {
    var ls := [HeaderLine, VersionLine(v)] + rest;
    assert ls[0] == HeaderLine && ls[1] == VersionLine(v);
    HeaderLineNamesNoVersion();
    VersionLineNamesVersion(v);
    RecordedSecond(ls);
    VersionLineField(v);
    VersionFieldStrip(v);
  }

  /** The scan over a restored file finds the version the restorer wrote. */
  lemma RecordedRestoreLines(v: string, l: FlagLists)
    requires VersionText(v)
    ensures RecordedVersion(RestoreLines(v, l)) == Some(v)
  {
    RegroupLead(HeaderLine, VersionLine(v), "\n", GcHeader, SectionLines(l));
    RecordedLead(v, ["\n", GcHeader] + SectionLines(l));
  }

  /** Four leading lines seen as two, then two more in front of the rest. */
  lemma RegroupLead<T>(a: T, b: T, c: T, d: T, s: seq<T>)
    ensures [a, b, c, d] + s == [a, b] + ([c, d] + s)
  {
  }

  /** Reading a restored file yields the header and version lines first, whatever the flags. */
  lemma ReadRestoredLead(v: string, l: FlagLists) returns (rest: string)
    requires VersionText(v)
    ensures ReadLines(RestoreText(v, l)) == [HeaderLine, VersionLine(v)] + ReadLines(rest)
  {
    var x := GcHeader + SectionText(l);
    rest := "\n" + x;
    VersionBreak("#java version: ", v, x);
    assert RestoreText(v, l) == HeaderLine + (VersionLine(v) + rest);
    HeaderLineWritten();
    VersionLineWritten(v);
    ReadTwoLines(HeaderLine, VersionLine(v), rest);
  }

  /** Two complete lines in front of a text are read back first. */
  lemma ReadTwoLines(a: string, b: string, rest: string)
    requires WrittenLine(a) && WrittenLine(b)
    ensures ReadLines(a + (b + rest)) == [a, b] + ReadLines(rest)
  {
    ReadLinesLead(b, rest);
    ReadLinesLead(a, b + rest);
    assert [a] + ([b] + ReadLines(rest)) == [a, b] + ReadLines(rest);
  }

  lemma VersionBreak(p: string, v: string, t: string)
    ensures p + v + "\n\n" + t == (p + v + "\n") + ("\n" + t)
  {
  }

  lemma VersionLineWritten(v: string)
    requires VersionText(v)
    ensures WrittenLine(VersionLine(v))
  {
    var lead := "#java version: ";
    assert forall i :: 0 <= i < |lead| ==> lead[i] != '\n' && lead[i] != '\r';
    WrappedLine(lead, v);
  }

  /** The same from the written text, read as the editor reads it, whatever the flags. */
  lemma RecordedRestored(v: string, l: FlagLists)
    requires VersionText(v)
    ensures RecordedVersion(ReadLines(RestoreText(v, l))) == Some(v)
  {
    var rest := ReadRestoredLead(v, l);
    RecordedLead(v, ReadLines(rest));
  }

  /** Writing a fresh file and reading it with the editor gives back the three lists. */
  lemma ParseRestored(v: string, l: FlagLists)
    requires VersionText(v) && PlainLists(l)
    ensures ParseFlagFile(ReadLines(RestoreText(v, l)))
      == FlagSections(l.gc, l.memory, l.performance, [], [])
  {
    ReadRestored(v, l);
    ParseRestoreLines(v, l);
  }
}
