/**
 Saving the user's selection (lines 221-241 of the editor): every line of
 the file is written back in place; a flag line is written active when its
 flag was selected and commented out otherwise; every other line is kept.
 */
module JvmArgsRewrite {
  import opened Optional
  import opened Text
  import opened JvmArgsFile
  import opened JvmArgsRestore

  // ---------------------------------------------------------------------------
  // The selected set
  // ---------------------------------------------------------------------------

  /**
   `set(([gc] if gc else []) + mem + perf + others)`: the chosen collector
   (none when the file offered none) and every checked flag.
   */
  function SelectedSet(gc: Option<string>, memory: seq<string>, performance: seq<string>,
                       others: seq<string>): (r: set<string>)
    ensures forall f :: f in r <==> gc == Some(f) || f in memory || f in performance || f in others
  {
    (if gc.Some? then {gc.value} else {}) + set f | f in memory + performance + others
  }

  // ---------------------------------------------------------------------------
  // One line
  // ---------------------------------------------------------------------------

  /**
   The line written in place of `line`. The flag test here is the bare
   `-`/`#-` test: unlike the parse, a header check does not come first.
   */
  function RewriteLine(line: string, selected: set<string>): (r: string)
    ensures EndsWith(r, "\n")
  {
    var s := Strip(line);
    if FlagShaped(s) then
      var f := CleanFlag(s);
      if f in selected then EndsWithBreak(f); f + "\n" else EndsWithBreak("#" + f); "#" + f + "\n"
    else if EndsWith(line, "\n") then line
    else EndsWithBreak(line); line + "\n"
  }

  /** A line that is not a flag is written as it was read, completed with a line end if it had none. */
  lemma RewriteKeepsText(line: string, selected: set<string>)
    requires !FlagShaped(Strip(line))
    ensures var r := RewriteLine(line, selected);
            StartsWith(r, line) && |r| <= |line| + 1 && Strip(r) == Strip(line)
  {
    if !EndsWith(line, "\n") {
      assert (line + "\n")[..|line|] == line;
      StripNewline(line);
    }
  }

  /** What a line's classification becomes once rewritten: a flag's activity is its selection. */
  function Relabel(k: LineKind, selected: set<string>): LineKind
  {
    match k
    case Flag(f, _) => Flag(f, f in selected)
    case _ => k
  }

  // ---------------------------------------------------------------------------
  // Helper facts about the rewritten text
  // ---------------------------------------------------------------------------

  /** A `#` in front changes no header test: no marker starts with `#`. */
  lemma MarkerAfterHash(t: string)
    ensures MarkerOf(Lower("#" + t)) == MarkerOf(Lower(t))
  {
    LowerAppend("#", t);
    assert Lower("#") == "#";
    var l := Lower(t);
    var g, m, p, o := "garbage collector", "memory config", "performance flags", "others";
    ContainsPrefixChar('#', l, g);
    ContainsPrefixChar('#', l, m);
    ContainsPrefixChar('#', l, p);
    ContainsPrefixChar('#', l, o);
  }

  /** Dropping leading `#`s changes no header test. */
  lemma {:induction false} MarkerLStrip(s: string)
    ensures MarkerOf(Lower(LStripChar(s, '#'))) == MarkerOf(Lower(s))
    decreases |s|
  {
    if |s| > 0 && s[0] == '#' {
      assert s == "#" + s[1..];
      MarkerAfterHash(s[1..]);
      MarkerLStrip(s[1..]);
    }
  }

  /** Without carriage returns, a flag's canonical text is the stripped line minus its leading `#`s. */
  lemma CleanFlagPlain(s: string)
    requires FlagShaped(s) && !IsSpace(s[|s| - 1]) && '\r' !in s
    ensures CleanFlag(s) == LStripChar(s, '#')
  {
    var u := LStripChar(s, '#');
    LStripFlag(s);
    LStripChars(s, '#');
    DashedClean(u);
  }

  /** A text that starts with `-` and has no surrounding blanks or carriage return is already normalized. */
  lemma DashedClean(u: string)
    requires u != [] && u[0] == '-' && !IsSpace(u[|u| - 1]) && '\r' !in u
    ensures Normalize(u) == u
  {
    assert !IsSpace(u[0]);
    NormalizeClean(u);
  }

  /** Stripping leading copies of a character keeps only characters of the original. */
  lemma LStripChars(s: string, c: char)
    ensures forall x :: x in LStripChar(s, c) ==> x in s
    decreases |s|
  {
    if |s| > 0 && s[0] == c {
      LStripChars(s[1..], c);
      assert forall x :: x in s[1..] ==> x in s;
    }
  }

  lemma SuffixChars(s: string, u: string)
    requires |u| <= |s| && u == s[|s| - |u|..]
    ensures forall x :: x in u ==> x in s
    ensures u != [] ==> u[|u| - 1] == s[|s| - 1]
  {
    assert forall i :: 0 <= i < |u| ==> u[i] == s[|s| - |u| + i];
  }

  lemma RewrittenFlagStrip(c: string)
    requires c != [] && c[0] == '-' && !IsSpace(c[|c| - 1])
    ensures Strip(c + "\n") == c && Strip("#" + c + "\n") == "#" + c
  {
    StripLine(c);
    StripLine("#" + c);
  }

  lemma RewrittenFlagShaped(c: string)
    requires c != [] && c[0] == '-'
    ensures FlagShaped(c) && FlagShaped("#" + c)
    ensures StartsWith(c, "-") && !StartsWith("#" + c, "-")
  {
    assert ("#" + c)[..2] == "#-";
  }

  lemma RewrittenFlagClean(c: string)
    requires c != [] && c[0] == '-' && !IsSpace(c[|c| - 1]) && '\r' !in c
    ensures CleanFlag(c) == c && CleanFlag("#" + c) == c
  {
    RewrittenFlagShaped(c);
    CleanFlagPlain(c);
    CleanFlagPlain("#" + c);
    assert LStripChar("#" + c, '#') == LStripChar(c, '#');
  }

  /** A flag line keeps its header test when rewritten. */
  lemma RewrittenFlagMarker(s: string, c: string)
    requires FlagShaped(s) && !IsSpace(s[|s| - 1]) && '\r' !in s && c == CleanFlag(s)
    ensures MarkerOf(Lower(c)) == MarkerOf(Lower(s))
    ensures MarkerOf(Lower("#" + c)) == MarkerOf(Lower(s))
  {
    CleanFlagPlain(s);
    MarkerLStrip(s);
    MarkerAfterHash(c);
  }

  /** A rewritten line is classified as the original, with a flag's activity set to its selection. */
  lemma RewriteClassify(line: string, selected: set<string>)
    requires '\r' !in line
    ensures Classify(RewriteLine(line, selected)) == Relabel(Classify(line), selected)
  {
    var s := Strip(line);
    if FlagShaped(s) {
      RewriteClassifyFlag(line, selected);
    } else if !EndsWith(line, "\n") {
      StripNewline(line);
    }
  }

  /** The flag written for a flag-shaped line: its canonical text, trimmed, starting with `-`. */
  lemma WrittenFlag(line: string) returns (s: string, c: string)
    requires '\r' !in line && FlagShaped(Strip(line))
    ensures s == Strip(line) && c == CleanFlag(s) && c == LStripChar(s, '#')
    ensures c != [] && c[0] == '-' && !IsSpace(c[|c| - 1]) && '\r' !in c
    ensures forall x :: x in c ==> x in s
    ensures '\r' !in s && !IsSpace(s[|s| - 1])
  {
    s := Strip(line);
    StripChars(line);
    c := CleanFlag(s);
    CleanFlagShape(s);
    CleanFlagPlain(s);
    SuffixChars(s, c);
  }

  lemma RewriteClassifyFlag(line: string, selected: set<string>)
    requires '\r' !in line && FlagShaped(Strip(line))
    ensures Classify(RewriteLine(line, selected)) == Relabel(Classify(line), selected)
  {
    var s, c := WrittenFlag(line);
    var r := RewriteLine(line, selected);
    var t := if c in selected then c else "#" + c;
    assert r == t + "\n";
    RewrittenFlagStrip(c);
    RewrittenFlagShaped(c);
    RewrittenFlagClean(c);
    RewrittenFlagMarker(s, c);
    assert Strip(r) == t;
    SameMarkerClassify(line, s, r, t, selected);
  }

  /** Two lines with the same header test and the same canonical flag classify alike, up to activity. */
  lemma SameMarkerClassify(line: string, s: string, r: string, t: string, selected: set<string>)
    requires Strip(line) == s && s != [] && FlagShaped(s)
    requires Strip(r) == t && t != [] && FlagShaped(t)
    requires MarkerOf(Lower(t)) == MarkerOf(Lower(s))
    requires CleanFlag(t) == CleanFlag(s) && (StartsWith(t, "-") <==> CleanFlag(s) in selected)
    ensures Classify(r) == Relabel(Classify(line), selected)
  {
  }

  /** A line read from the file is written back as a complete line. */
  lemma RewriteWritten(line: string, selected: set<string>)
    requires ReadLine(line)
    ensures WrittenLine(RewriteLine(line, selected))
  {
    if FlagShaped(Strip(line)) {
      var s, c := WrittenFlag(line);
      StripNoBreak(line);
      WrittenFlagLine(c, c in selected);
      assert RewriteLine(line, selected) == if c in selected then c + "\n" else "#" + c + "\n";
    } else if !EndsWith(line, "\n") {
      CompletedLine(line);
    }
  }

  lemma WrittenFlagLine(c: string, active: bool)
    requires c != [] && '\n' !in c && '\r' !in c
    ensures WrittenLine(if active then c + "\n" else "#" + c + "\n")
  {
    if active {
      WrappedLine([c[0]], c[1..]);
      assert [c[0]] + c[1..] + "\n" == c + "\n";
    } else {
      WrappedLine("#", c);
    }
  }

  /** A final line without its line end gets one. */
  lemma CompletedLine(line: string)
    requires ReadLine(line) && !EndsWith(line, "\n")
    ensures WrittenLine(line + "\n")
  {
    var x := line + "\n";
    assert x[|x| - 1..] == "\n";
    assert line[|line| - 1..] != "\n";
    assert forall i :: 0 <= i < |x| - 1 ==> x[i] == line[i];
  }

  /** Saving twice with the same selection writes the same line as saving once. */
  lemma RewriteLineIdempotent(line: string, selected: set<string>)
    requires '\r' !in line
    ensures RewriteLine(RewriteLine(line, selected), selected) == RewriteLine(line, selected)
  {
    if FlagShaped(Strip(line)) {
      IdempotentFlag(line, selected);
    } else {
      IdempotentOther(line, selected);
    }
  }

  lemma IdempotentFlag(line: string, selected: set<string>)
    requires '\r' !in line && FlagShaped(Strip(line))
    ensures RewriteLine(RewriteLine(line, selected), selected) == RewriteLine(line, selected)
  {
    var x := FlagFixedPoint(line, selected);
    FixedAfter(line, x, selected);
  }

  /** The line written for a flag line is written again unchanged. */
  lemma FlagFixedPoint(line: string, selected: set<string>) returns (x: string)
    requires '\r' !in line && FlagShaped(Strip(line))
    ensures RewriteLine(line, selected) == x && RewriteLine(x, selected) == x
  {
    var s, c := WrittenFlag(line);
    RewriteFlagOf(line, s, c, selected);
    x := if c in selected then c + "\n" else "#" + c + "\n";
    WrittenFlagFixed(c, selected);
  }

  lemma WrittenFlagFixed(c: string, selected: set<string>)
    requires c != [] && c[0] == '-' && !IsSpace(c[|c| - 1]) && '\r' !in c
    ensures var x := if c in selected then c + "\n" else "#" + c + "\n";
            RewriteLine(x, selected) == x
  {
    if c in selected {
      ActiveFixed(c, selected);
    } else {
      CommentedFixed(c, selected);
    }
  }

  lemma ActiveFixed(c: string, selected: set<string>)
    requires c != [] && c[0] == '-' && !IsSpace(c[|c| - 1]) && '\r' !in c && c in selected
    ensures RewriteLine(c + "\n", selected) == c + "\n"
  {
    RewrittenFlagStrip(c);
    RewrittenFlagShaped(c);
    RewrittenFlagClean(c);
    RewriteFlagOf(c + "\n", c, c, selected);
  }

  lemma CommentedFixed(c: string, selected: set<string>)
    requires c != [] && c[0] == '-' && !IsSpace(c[|c| - 1]) && '\r' !in c && c !in selected
    ensures RewriteLine("#" + c + "\n", selected) == "#" + c + "\n"
  {
    RewrittenFlagStrip(c);
    RewrittenFlagShaped(c);
    RewrittenFlagClean(c);
    RewriteFlagOf("#" + c + "\n", "#" + c, c, selected);
  }

  /** A line whose stripped text is flag-shaped with canonical text `c`. */
  lemma RewriteFlagOf(x: string, t: string, c: string, selected: set<string>)
    requires Strip(x) == t && FlagShaped(t) && CleanFlag(t) == c
    ensures RewriteLine(x, selected) == if c in selected then c + "\n" else "#" + c + "\n"
  {
  }

  lemma FixedAfter(line: string, x: string, selected: set<string>)
    requires RewriteLine(line, selected) == x && RewriteLine(x, selected) == x
    ensures RewriteLine(RewriteLine(line, selected), selected) == RewriteLine(line, selected)
  {
  }

  lemma IdempotentOther(line: string, selected: set<string>)
    requires !FlagShaped(Strip(line))
    ensures RewriteLine(RewriteLine(line, selected), selected) == RewriteLine(line, selected)
  {
    if !EndsWith(line, "\n") {
      var x := line + "\n";
      StripNewline(line);
      assert x[|x| - 1..] == "\n";
      RewriteOtherOf(x);
    } else {
      RewriteOtherOf(line);
    }
  }

  lemma RewriteOtherOf(x: string)
    requires !FlagShaped(Strip(x)) && EndsWith(x, "\n")
    ensures forall selected :: RewriteLine(x, selected) == x
  {
  }

  // ---------------------------------------------------------------------------
  // The whole file
  // ---------------------------------------------------------------------------

  /** The lines written for `lines`: one for one, in the same order. */
  function RewriteLines(lines: seq<string>, selected: set<string>): (r: seq<string>)
    ensures |r| == |lines|
    ensures forall k :: 0 <= k < |lines| ==> r[k] == RewriteLine(lines[k], selected)
  {
    if |lines| == 0 then [] else [RewriteLine(lines[0], selected)] + RewriteLines(lines[1..], selected)
  }

  /** The saved text. */
  function SavedText(lines: seq<string>, selected: set<string>): string
  {
    Concat(RewriteLines(lines, selected))
  }

  /** Every line of the saved file is complete. */
  lemma RewriteLinesWritten(lines: seq<string>, selected: set<string>)
    requires AllRead(lines)
    ensures AllWritten(RewriteLines(lines, selected))
  {
    forall k | 0 <= k < |lines| ensures WrittenLine(RewriteLines(lines, selected)[k]) {
      RewriteWritten(lines[k], selected);
    }
  }

  /** Reading the saved file gives back exactly the rewritten lines. */
  lemma ReadSaved(lines: seq<string>, selected: set<string>)
    requires AllRead(lines)
    ensures ReadLines(SavedText(lines, selected)) == RewriteLines(lines, selected)
  {
    RewriteLinesWritten(lines, selected);
    ReadWrittenLines(RewriteLines(lines, selected));
  }

  /** The four option lists of two parses agree. */
  predicate SameOptions(p: FlagSections, q: FlagSections)
  {
    p.gc == q.gc && p.memory == q.memory && p.performance == q.performance && p.others == q.others
  }

  /** After a parse of the rest, the rewritten parse relates to the original one as promised. */
  predicate Reparsed(after: FlagSections, before: FlagSections, selected: set<string>)
  {
    SameOptions(after, before)
    && (forall f :: f in after.active ==> f in AllOptions(before) && f in selected)
    && (forall f :: f in AllOptions(before) && f in selected ==> f in after.active)
  }

  /**
   Parsing the rewritten lines gives the same option lists as before, and a
   flag is active exactly when it is an option and was selected.
   */
  lemma {:induction false} ParseRewriteFrom(lines: seq<string>, selected: set<string>, sec: Section)
    requires forall k :: 0 <= k < |lines| ==> '\r' !in lines[k]
    ensures Reparsed(ParseFrom(RewriteLines(lines, selected), sec), ParseFrom(lines, sec), selected)
    decreases |lines|
  {
    if |lines| > 0 {
      var line, rest := lines[0], lines[1..];
      var rline, rrest := RewriteLine(line, selected), RewriteLines(rest, selected);
      RewriteLinesCons(lines, selected);
      SplitFirst(lines);
      RewriteClassify(line, selected);
      var next := if Classify(line).Marker? then Classify(line).section else sec;
      ParseRewriteFrom(rest, selected, next);
      if Classify(line).Flag? {
        ParseFlag(line, rest, sec);
        ParseFlag(rline, rrest, sec);
        AddFlagReparsed(sec, Classify(line).flag, Classify(line).active,
                        ParseFrom(rrest, sec), ParseFrom(rest, sec), selected);
      } else {
        ParseSkip(line, rest, sec);
        ParseSkip(rline, rrest, sec);
      }
    }
  }

  lemma SplitFirst<T>(s: seq<T>)
    requires |s| > 0
    ensures s == [s[0]] + s[1..]
  {
  }

  lemma RewriteLinesCons(lines: seq<string>, selected: set<string>)
    requires |lines| > 0
    ensures RewriteLines(lines, selected) == [RewriteLine(lines[0], selected)] + RewriteLines(lines[1..], selected)
  {
  }

  /** The same flag added to both parses, active in the rewritten one exactly when selected. */
  lemma AddFlagReparsed(sec: Section, f: string, active: bool, after: FlagSections,
                        before: FlagSections, selected: set<string>)
    requires Normalize(f) == f
    requires Reparsed(after, before, selected)
    ensures Reparsed(AddFlag(sec, f, f in selected, after), AddFlag(sec, f, active, before), selected)
  {
  }

  /**
   Saving a file read by the editor and reading it again: the same options in
   every section, and the active flags are exactly the selected options.
   */
  lemma ParseSaved(text: string, selected: set<string>)
    ensures Reparsed(ParseFlagFile(ReadLines(SavedText(ReadLines(text), selected))),
                     ParseFlagFile(ReadLines(text)), selected)
  {
    var lines := ReadLines(text);
    ReadLinesRead(text);
    ReadSaved(lines, selected);
    ParseRewriteFrom(lines, selected, Others);
  }

  /** Saving the saved file again with the same selection changes nothing. */
  lemma SaveIdempotent(lines: seq<string>, selected: set<string>)
    requires AllRead(lines)
    ensures RewriteLines(RewriteLines(lines, selected), selected) == RewriteLines(lines, selected)
  {
    forall k | 0 <= k < |lines|
      ensures RewriteLines(RewriteLines(lines, selected), selected)[k] == RewriteLines(lines, selected)[k]
    {
      RewriteLineIdempotent(lines[k], selected);
    }
  }
}
