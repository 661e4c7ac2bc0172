/**
 The active-flags view (`view_jvm_args`): the lines of the flag file that
 are neither blank nor commented out, each stripped and on its own line.
 The program hands this loop the file's whole text, so it walks characters;
 `ViewAsWritten` models that, `ViewText` the evidently intended walk over lines.
 */
module JvmArgsView {
  import opened Text
  import opened JavaVersion
  import opened JvmArgsFile
  import opened JvmArgsRestore

  /** The view's test for one line: not blank, and the raw line does not start with `#`. */
  predicate Shown(line: string)
  {
    Strip(line) != [] && !StartsWith(line, "#")
  }

  /** The stripped shown lines, in file order. */
  function ViewLines(lines: seq<string>): (r: seq<string>)
    ensures |r| <= |lines|
  {
    if |lines| == 0 then []
    else if Shown(lines[0]) then [Strip(lines[0])] + ViewLines(lines[1..])
    else ViewLines(lines[1..])
  }

  /** Text with something in it and no whitespace at either end. */
  predicate Trimmed(x: string)
  {
    x != [] && !IsSpace(x[0]) && !IsSpace(x[|x| - 1])
  }

  /** Every line the view shows is non-empty and stripped at both ends. */
  lemma {:induction false} ViewLinesTrimmed(lines: seq<string>)
    ensures forall k :: 0 <= k < |ViewLines(lines)| ==> Trimmed(ViewLines(lines)[k])
    decreases |lines|
  {
    if |lines| > 0 {
      ViewLinesTrimmed(lines[1..]);
      var head := ShownHead(lines[0]);
      ViewLinesCons(lines);
      TrimmedAppend(head, ViewLines(lines[1..]));
    }
  }

  /** What the view shows of one line: its stripped text when shown, which is then trimmed. */
  lemma ShownHead(line: string) returns (head: seq<string>)
    ensures head == if Shown(line) then [Strip(line)] else []
    ensures forall k :: 0 <= k < |head| ==> Trimmed(head[k])
  {
    head := if Shown(line) then [Strip(line)] else [];
  }

  lemma TrimmedAppend(a: seq<string>, b: seq<string>)
    requires forall k :: 0 <= k < |a| ==> Trimmed(a[k])
    requires forall k :: 0 <= k < |b| ==> Trimmed(b[k])
    ensures forall k :: 0 <= k < |a + b| ==> Trimmed((a + b)[k])
  {
    assert forall k :: |a| <= k < |a + b| ==> (a + b)[k] == b[k - |a|];
  }

  /** Each string followed by a line end. */
  function Terminated(ls: seq<string>): (r: seq<string>)
    ensures |r| == |ls|
    ensures forall k :: 0 <= k < |ls| ==> r[k] == ls[k] + "\n"
  {
    if |ls| == 0 then [] else [ls[0] + "\n"] + Terminated(ls[1..])
  }

  /** The view over the file's lines: one stripped line per shown line. */
  function ViewText(lines: seq<string>): string
  {
    Concat(Terminated(ViewLines(lines)))
  }

  // ---------------------------------------------------------------------------
  // What the intended view shows
  // ---------------------------------------------------------------------------

  /**
   For a flag line that does not start with whitespace, the view shows it
   exactly when it is active, and shows the flag's canonical text.
   */
  lemma ShownFlag(line: string)
    requires '\r' !in line && line != [] && !IsSpace(line[0]) && Classify(line).Flag?
    ensures Shown(line) <==> Classify(line).active
    ensures Shown(line) ==> Strip(line) == Classify(line).flag
  {
    var k := Classify(line);
    ClassifyFlagText(line);
    ShownFlagText(line, k.active, k.flag);
  }

  lemma ShownFlagText(line: string, active: bool, flag: string)
    requires '\r' !in line && line != [] && !IsSpace(line[0])
    requires FlagShaped(Strip(line)) && (active <==> StartsWith(Strip(line), "-"))
    requires flag == CleanFlag(Strip(line))
    ensures Shown(line) <==> active
    ensures Shown(line) ==> Strip(line) == flag
  {
    var s := Strip(line);
    StripFromStart(line);
    StartsWithChar(line, '#');
    FlagShapedHead(s);
    if s[0] == '-' {
      ActiveFlagText(s);
    }
  }

  /** `x.startswith(c)` for a one-character `c`. */
  lemma StartsWithChar(x: string, c: char)
    ensures StartsWith(x, [c]) <==> |x| > 0 && x[0] == c
  {
    if |x| > 0 {
      assert x[..1] == [x[0]];
    }
  }

  /** An active flag's stripped line is already its canonical text. */
  lemma ActiveFlagText(s: string)
    requires s != [] && s[0] == '-' && !IsSpace(s[|s| - 1]) && '\r' !in s
    ensures CleanFlag(s) == s
  {
    NormalizeClean(s);
  }

  /** A line that does not start with whitespace strips to one of its prefixes. */
  lemma StripFromStart(line: string)
    requires line != [] && !IsSpace(line[0])
    ensures Strip(line) != [] && Strip(line)[0] == line[0]
    ensures forall c :: c in Strip(line) ==> c in line
  {
    assert LStrip(line) == line;
    StripChars(line);
  }

  lemma ViewLinesCons(lines: seq<string>)
    requires |lines| > 0
    ensures ViewLines(lines) == (if Shown(lines[0]) then [Strip(lines[0])] else []) + ViewLines(lines[1..])
  {
  }

  /** Text with no line break of either kind. */
  predicate Unbroken(x: string)
  {
    '\n' !in x && '\r' !in x
  }

  predicate AllUnbroken(ls: seq<string>)
  {
    forall k :: 0 <= k < |ls| ==> Unbroken(ls[k])
  }

  lemma AllUnbrokenAppend(a: seq<string>, b: seq<string>)
    requires AllUnbroken(a) && AllUnbroken(b)
    ensures AllUnbroken(a + b)
  {
    assert forall k :: |a| <= k < |a + b| ==> (a + b)[k] == b[k - |a|];
  }

  /** The shown lines of the lines read from a file hold no line break. */
  lemma {:induction false} ViewLinesNoBreak(lines: seq<string>)
    requires AllRead(lines)
    ensures AllUnbroken(ViewLines(lines))
    decreases |lines|
  {
    if |lines| > 0 {
      AllReadTail(lines);
      ViewLinesNoBreak(lines[1..]);
      ViewLinesCons(lines);
      if Shown(lines[0]) {
        ShownUnbroken(lines[0]);
        AllUnbrokenAppend([Strip(lines[0])], ViewLines(lines[1..]));
      } else {
        assert [] + ViewLines(lines[1..]) == ViewLines(lines[1..]);
      }
    }
  }

  lemma ShownUnbroken(line: string)
    requires ReadLine(line)
    ensures Unbroken(Strip(line))
  {
    StripNoBreak(line);
    StripChars(line);
  }

  /** One shown line with its line end is a complete line. */
  lemma LineWritten(v: string)
    requires Unbroken(v) && v != []
    ensures WrittenLine(v + "\n")
  {
    WrappedLine([v[0]], v[1..]);
    assert [v[0]] + v[1..] == v;
  }

  /** Shown lines with their line ends are complete lines. */
  lemma TerminatedWritten(vs: seq<string>)
    requires AllUnbroken(vs) && forall k :: 0 <= k < |vs| ==> Trimmed(vs[k])
    ensures AllWritten(Terminated(vs))
  {
    forall k | 0 <= k < |vs| ensures WrittenLine(Terminated(vs)[k]) {
      LineWritten(vs[k]);
    }
  }

  /** Reading the view's text back gives one line per shown line. */
  lemma ReadView(text: string)
    ensures ReadLines(ViewText(ReadLines(text))) == Terminated(ViewLines(ReadLines(text)))
  {
    var lines := ReadLines(text);
    ReadLinesRead(text);
    ViewLinesNoBreak(lines);
    ViewLinesTrimmed(lines);
    TerminatedWritten(ViewLines(lines));
    ReadWrittenLines(Terminated(ViewLines(lines)));
  }

  // ---------------------------------------------------------------------------
  // A fresh file shows nothing
  // ---------------------------------------------------------------------------

  /** Lines the view hides: blank, or starting with `#`. */
  predicate Hidden(ls: seq<string>)
  {
    forall k :: 0 <= k < |ls| ==> Strip(ls[k]) == [] || StartsWith(ls[k], "#")
  }

  lemma {:induction false} HiddenShowsNothing(ls: seq<string>)
    requires Hidden(ls)
    ensures ViewLines(ls) == []
    decreases |ls|
  {
    if |ls| > 0 {
      assert !Shown(ls[0]);
      HiddenShowsNothing(ls[1..]);
    }
  }

  lemma HiddenAppend(a: seq<string>, b: seq<string>)
    requires Hidden(a) && Hidden(b)
    ensures Hidden(a + b)
  {
    forall k | 0 <= k < |a + b| ensures Strip((a + b)[k]) == [] || StartsWith((a + b)[k], "#") {
      if k >= |a| {
        assert (a + b)[k] == b[k - |a|];
      }
    }
  }

  lemma CommentedBlockHidden(fs: seq<string>)
    ensures Hidden(CommentedBlock(fs))
  {
    if |fs| == 0 {
      assert "#\n"[..1] == "#";
    } else {
      forall k | 0 <= k < |fs| ensures StartsWith(CommentedFlags(fs)[k], "#") {
        assert ("#" + fs[k] + "\n")[..1] == "#";
      }
    }
  }

  lemma HeaderHidden(name: string)
    ensures StartsWith(SectionHeader(name), "#")
  {
    StartsWithChar(SectionHeader(name), '#');
  }

  lemma BlankHidden()
    ensures Strip("\n") == []
  {
    assert IsSpace('\n');
  }

  /** A commented block followed by a blank line, a section header and hidden lines is hidden. */
  lemma BlockHidden(fs: seq<string>, header: string, rest: seq<string>)
    requires StartsWith(header, "#") && Hidden(rest)
    ensures Hidden(CommentedBlock(fs) + (["\n", header] + rest))
  {
    BlankHidden();
    CommentedBlockHidden(fs);
    HiddenAppend(["\n", header], rest);
    HiddenAppend(CommentedBlock(fs), ["\n", header] + rest);
  }

  lemma SectionLinesHidden(l: FlagLists)
    ensures Hidden(SectionLines(l))
  {
    HeaderHidden(OthersName);
    BlockHidden(l.performance, OthersHeader, []);
    assert ["\n", OthersHeader] + [] == ["\n", OthersHeader];
    var r1 := CommentedBlock(l.performance) + ["\n", OthersHeader];
    HeaderHidden(PerformanceName);
    BlockHidden(l.memory, PerformanceHeader, r1);
    var r2 := CommentedBlock(l.memory) + (["\n", PerformanceHeader] + r1);
    HeaderHidden(MemoryName);
    BlockHidden(l.gc, MemoryHeader, r2);
  }

  lemma LeadLinesHidden(v: string)
    ensures Hidden([HeaderLine, VersionLine(v), "\n", GcHeader])
  {
    var h := HeaderLine;
    StartsWithChar(h, '#');
    StartsWithChar(VersionLine(v), '#');
    BlankHidden();
    HeaderHidden(GcName);
    HiddenFour(h, VersionLine(v), "\n", GcHeader);
  }

  lemma HiddenFour(a: string, b: string, c: string, d: string)
    requires StartsWith(a, "#") && StartsWith(b, "#") && Strip(c) == [] && StartsWith(d, "#")
    ensures Hidden([a, b, c, d])
  {
  }

  /** A freshly restored file, every flag commented out, shows no argument. */
  lemma FreshViewEmpty(v: string, l: FlagLists)
    ensures ViewLines(RestoreLines(v, l)) == []
  {
    LeadLinesHidden(v);
    SectionLinesHidden(l);
    HiddenAppend([HeaderLine, VersionLine(v), "\n", GcHeader], SectionLines(l));
    HiddenShowsNothing(RestoreLines(v, l));
  }

  // ---------------------------------------------------------------------------
  // The loop as written: over the characters of the text
  // ---------------------------------------------------------------------------

  /**
   `for line in text` on a string: each character is a one-character "line";
   it is shown when it is not whitespace and not `#`, followed by a line end.
   */
  function ViewAsWritten(text: string): (r: string)
    ensures |r| % 2 == 0 && |r| <= 2 * |text|
  {
    if |text| == 0 then []
    else if Shown([text[0]]) then [text[0], '\n'] + ViewAsWritten(text[1..])
    else ViewAsWritten(text[1..])
  }

  /** As written, the output alternates: a shown character, then a line end. */
  lemma {:induction false} ViewAsWrittenShape(text: string)
    ensures forall i :: 0 <= i < |ViewAsWritten(text)| ==> (ViewAsWritten(text)[i] == '\n' <==> i % 2 == 1)
    decreases |text|
  {
    if |text| > 0 {
      var c, t := text[0], text[1..];
      ViewAsWrittenShape(t);
      assert text == [c] + t;
      ViewAsWrittenCons(c, t);
      var rest := ViewAsWritten(t);
      if !IsSpace(c) && c != '#' {
        assert c != '\n' by { assert IsSpace('\n'); }
        AlternatingCons(c, rest);
      }
    }
  }

  /** A non-break character and a line end in front of an alternating text keep it alternating. */
  lemma AlternatingCons(c: char, rest: string)
    requires c != '\n'
    requires forall i :: 0 <= i < |rest| ==> (rest[i] == '\n' <==> i % 2 == 1)
    ensures var r := [c, '\n'] + rest;
      forall i :: 0 <= i < |r| ==> (r[i] == '\n' <==> i % 2 == 1)
  {
    var r := [c, '\n'] + rest;
    forall i | 2 <= i < |r|
      ensures r[i] == '\n' <==> i % 2 == 1
    {
      assert r[i] == rest[i - 2];
      assert (i - 2) % 2 == i % 2;
    }
  }

  /** A one-character line is shown exactly when the character is neither blank nor `#`. */
  lemma ShownChar(c: char)
    ensures Shown([c]) <==> !IsSpace(c) && c != '#'
  {
    StartsWithChar([c], '#');
    assert "#" == ['#'];
    if IsSpace(c) {
      assert LStrip([c]) == LStrip([c][1..]);
    } else {
      assert Strip([c]) == [c];
    }
  }

  /** One character of the as-written loop. */
  lemma ViewAsWrittenCons(c: char, t: string)
    ensures ViewAsWritten([c] + t) == (if !IsSpace(c) && c != '#' then [c, '\n'] else []) + ViewAsWritten(t)
  {
    var text := [c] + t;
    assert text[0] == c && text[1..] == t;
    ShownChar(c);
  }

  /** Every character followed by a line end. */
  function Spread(f: string): (r: string)
    ensures |r| == 2 * |f|
  {
    if |f| == 0 then [] else [f[0], '\n'] + Spread(f[1..])
  }

  /** As written, a flag line comes out one character per line. */
  lemma {:induction false} ViewAsWrittenSplits(f: string)
    requires forall i :: 0 <= i < |f| ==> !IsSpace(f[i]) && f[i] != '#'
    ensures ViewAsWritten(f + "\n") == Spread(f)
    decreases |f|
  {
    var nl := '\n';
    if |f| == 0 {
      assert IsSpace(nl);
      ViewAsWrittenCons(nl, []);
      assert f + "\n" == [nl] + [];
    } else {
      var t := f[1..];
      assert forall i :: 0 <= i < |t| ==> t[i] == f[i + 1];
      ViewAsWrittenSplits(t);
      assert f + "\n" == [f[0]] + (t + "\n");
      ViewAsWrittenCons(f[0], t + "\n");
    }
  }

  /** The line walk shows a flag line as the flag on one line. */
  lemma ViewTextKeepsFlag(f: string)
    requires f != [] && f[0] == '-' && forall i :: 0 <= i < |f| ==> !IsSpace(f[i])
    ensures ViewText([f + "\n"]) == f + "\n"
  {
    var line := f + "\n";
    StripLine(f);
    StartsWithChar(line, '#');
    assert Shown(line);
    ViewLinesCons([line]);
    assert [line][1..] == [];
    assert ViewLines([line]) == [f];
    assert Terminated([f]) == [f + "\n"];
    assert Concat([line]) == line + Concat([]);
  }

  /**
   For any flag of two or more characters the loop as written and the line
   walk disagree: "-Xa" comes out as "-", "X" and "a" on three lines.
   */
  lemma ViewAsWrittenBreaksFlags(f: string)
    requires |f| >= 2 && f[0] == '-' && forall i :: 0 <= i < |f| ==> !IsSpace(f[i]) && f[i] != '#'
    ensures ViewAsWritten(f + "\n") != ViewText([f + "\n"])
  {
    ViewAsWrittenSplits(f);
    ViewTextKeepsFlag(f);
  }
}
