/**
 The start script written next to a freshly installed server: its file
 name, its text and whether it is marked executable, chosen from the
 platform, the server type and the two memory sizes. The sizes are
 formatted into the Java command exactly as given; a missing size prints
 as `None`, as a Python format string does.
 */
module Launch {
  import opened Optional
  import opened Text

  /** `os.name == "nt"` or not. */
  datatype Platform = Windows | Posix

  /** The script as written: file name, text, and whether it gets mode 755. */
  datatype Script = Script(name: string, content: string, executable: bool)

  /** A value formatted into an f-string; `None` prints as its name. */
  function Shown(x: Option<string>): string
  {
    match x
    case None => "None"
    case Some(s) => s
  }

  /** The words of the Java command line. */
  function CommandWords(xmx: Option<string>, xms: Option<string>): seq<string>
  {
    ["java", "-Xmx" + Shown(xmx), "-Xms" + Shown(xms), "-jar", "server.jar", "nogui"]
  }

  /** The Java command line of both start scripts. */
  function JavaCommand(xmx: Option<string>, xms: Option<string>): string
  {
    "java -Xmx" + Shown(xmx) + " -Xms" + Shown(xms) + " -jar server.jar nogui"
  }

  /** `create_start_script`: the file name, the text and the permission for one server. */
  function StartScript(platform: Platform, serverType: string, xmx: Option<string>, xms: Option<string>)
    : (r: Script)
    ensures r.executable <==> platform == Posix
    ensures EndsWith(r.name, ".bat") <==> platform == Windows
  {
    match platform
    case Windows =>
      var content :=
        if serverType == "Bedrock" then "bedrock_server.exe"
        else JavaCommand(xmx, xms) + "\npause";
      assert "start.bat"[5..] == ".bat";
      Script("start.bat", content, false)
    case Posix =>
      var content :=
        if serverType == "Bedrock" then "./bedrock_server"
        else "#!/bin/bash\n" + JavaCommand(xmx, xms);
      assert "start.sh"[4..] != ".bat";
      Script("start.sh", content, true)
  }

  /** `s.split(c)`: the pieces between occurrences of `c`. */
  function SplitOn(s: string, c: char): (r: seq<string>)
    ensures |r| > 0
    ensures forall k :: 0 <= k < |r| ==> c !in r[k]
    decreases |s|
  {
    var i := IndexOf(s, c);
    if i == |s| then [s]
    else [s[..i]] + SplitOn(s[i + 1..], c)
  }

  /** Joining pieces free of `c` with `c` and splitting on `c` gives the pieces back. */
  lemma {:induction false} SplitOnJoin(ls: seq<string>, c: char)
    requires |ls| > 0
    requires forall k :: 0 <= k < |ls| ==> c !in ls[k]
    ensures SplitOn(Join([c], ls), c) == ls
  {
    if |ls| == 1 {
      NoIndex(ls[0], c);
    } else {
      var s := Join([c], ls);
      assert s == ls[0] + ([c] + Join([c], ls[1..]));
      NoIndex(ls[0], c);
      IndexOfSkip(ls[0], [c] + Join([c], ls[1..]), c);
      assert IndexOf(s, c) == |ls[0]|;
      assert s[..|ls[0]|] == ls[0];
      assert s[|ls[0]| + 1..] == Join([c], ls[1..]);
      SplitOnJoin(ls[1..], c);
      assert ls == [ls[0]] + ls[1..];
    }
  }

  /** A text without `c` has no index of `c`. */
  lemma {:induction false} NoIndex(s: string, c: char)
    requires c !in s
    ensures IndexOf(s, c) == |s|
  {
    if |s| > 0 {
      NoIndex(s[1..], c);
    }
  }

  /** Joining six pieces. */
  lemma JoinSix(sep: string, a: string, b: string, c: string, d: string, e: string, f: string)
    ensures Join(sep, [a, b, c, d, e, f]) == a + sep + b + sep + c + sep + d + sep + e + sep + f
  {
    var ls := [a, b, c, d, e, f];
    assert ls[1..][1..][1..][1..][1..] == [f];
    assert ls[1..][1..][1..][1..] == [e, f];
    assert Join(sep, [e, f]) == e + sep + f;
    assert ls[1..][1..][1..] == [d, e, f];
    assert Join(sep, [d, e, f]) == d + sep + e + sep + f;
    assert ls[1..][1..] == [c, d, e, f];
    assert Join(sep, [c, d, e, f]) == c + sep + d + sep + e + sep + f;
    assert ls[1..] == [b, c, d, e, f];
    assert Join(sep, [b, c, d, e, f]) == b + sep + c + sep + d + sep + e + sep + f;
  }

  /** The fixed parts of the command, cut at its blanks. */
  lemma CommandPieces()
    ensures "java -Xmx" == "java" + " " + "-Xmx"
    ensures " -Xms" == " " + "-Xms"
    ensures " -jar server.jar nogui" == " " + "-jar" + " " + "server.jar" + " " + "nogui"
  {
  }

  /** The command line is its words joined by blanks. */
  lemma CommandJoined(xmx: Option<string>, xms: Option<string>)
    ensures JavaCommand(xmx, xms) == Join(" ", CommandWords(xmx, xms))
  {
    var x, m := Shown(xmx), Shown(xms);
    JoinSix(" ", "java", "-Xmx" + x, "-Xms" + m, "-jar", "server.jar", "nogui");
    CommandPieces();
    CommandRegroup(" ", "java", "-Xmx", x, "-Xms", m, "-jar", "server.jar", "nogui");
  }

  /** The pieces of the command line, regrouped around the two sizes. */
  lemma CommandRegroup(sep: string, a: string, b: string, x: string, c: string, m: string,
                       d: string, e: string, f: string)
    ensures (a + sep + b) + x + (sep + c) + m + (sep + d + sep + e + sep + f)
      == a + sep + (b + x) + sep + (c + m) + sep + d + sep + e + sep + f
  {
  }

  /** A character absent from the separator and from every piece is absent from the join. */
  lemma {:induction false} JoinLacks(sep: string, ls: seq<string>, c: char)
    requires c !in sep && forall k :: 0 <= k < |ls| ==> c !in ls[k]
    ensures c !in Join(sep, ls)
  {
    if |ls| > 1 {
      JoinLacks(sep, ls[1..], c);
    }
  }

  /** A line break is in the command only if one of the sizes holds it. */
  lemma CommandLacks(xmx: Option<string>, xms: Option<string>, c: char)
    requires c == '\n' || c == '\r'
    requires c !in Shown(xmx) && c !in Shown(xms)
    ensures c !in JavaCommand(xmx, xms)
  {
    var w := CommandWords(xmx, xms);
    CommandJoined(xmx, xms);
    assert c !in w[1] && c !in w[2];
    JoinLacks(" ", w, c);
  }

  /**
   The shell splits the command into the words `java`, `-Xmx` followed by
   the Xmx text, `-Xms` followed by the Xms text, `-jar`, `server.jar` and
   `nogui`, provided neither size holds a blank.
   */
  lemma JavaCommandWords(xmx: Option<string>, xms: Option<string>)
    requires ' ' !in Shown(xmx) && ' ' !in Shown(xms)
    ensures SplitOn(JavaCommand(xmx, xms), ' ') == CommandWords(xmx, xms)
  {
    var w := CommandWords(xmx, xms);
    CommandJoined(xmx, xms);
    assert " " == [' '];
    forall k | 0 <= k < |w| ensures ' ' !in w[k] {
      if k == 1 {
        assert forall j :: 0 <= j < |w[1]| ==> w[1][j] != ' ' by {
          forall j | 0 <= j < |w[1]| ensures w[1][j] != ' ' {
            if j >= 4 {
              assert w[1][j] == Shown(xmx)[j - 4];
            }
          }
        }
      } else if k == 2 {
        assert forall j :: 0 <= j < |w[2]| ==> w[2][j] != ' ' by {
          forall j | 0 <= j < |w[2]| ensures w[2][j] != ' ' {
            if j >= 4 {
              assert w[2][j] == Shown(xms)[j - 4];
            }
          }
        }
      }
    }
    SplitOnJoin(w, ' ');
  }

  /** Which server type is given matters only through whether it is `"Bedrock"`. */
  lemma OnlyBedrockDiffers(platform: Platform, serverType: string, xmx: Option<string>, xms: Option<string>)
    requires serverType != "Bedrock"
    ensures StartScript(platform, serverType, xmx, xms) == StartScript(platform, "Java", xmx, xms)
  {
  }

  /** The Bedrock script runs the server binary and ignores the memory sizes. */
  lemma BedrockIgnoresMemory(platform: Platform, a: Option<string>, b: Option<string>, c: Option<string>, d: Option<string>)
    ensures StartScript(platform, "Bedrock", a, b) == StartScript(platform, "Bedrock", c, d)
    ensures StartScript(platform, "Bedrock", a, b).content ==
      (if platform == Windows then "bedrock_server.exe" else "./bedrock_server")
  {
  }

  /** A final line without a line end reads back as itself. */
  lemma ReadLastLine(b: string)
    requires b != [] && '\n' !in b && '\r' !in b
    ensures ReadLines(b) == [b]
  {
    UniversalNewlinesPlain(b);
    NoIndex(b, '\n');
  }

  /** A line whose only line end closes it. */
  lemma ClosedLine(a: string)
    requires a != [] && '\n' !in a && '\r' !in a
    ensures IsLine(a + "\n") && EndsWith(a + "\n", "\n") && '\r' !in a + "\n"
  {
    var l := a + "\n";
    assert l[|l| - 1..] == "\n";
    assert forall i :: 0 <= i < |l| - 1 ==> l[i] == a[i];
  }

  /** A bash script: the interpreter line, then one command line. */
  lemma PosixLines(cmd: string)
    requires cmd != [] && '\n' !in cmd && '\r' !in cmd
    ensures ReadLines("#!/bin/bash\n" + cmd) == ["#!/bin/bash\n", cmd]
  {
    ClosedLine("#!/bin/bash");
    ReadLinesLead("#!/bin/bash\n", cmd);
    ReadLastLine(cmd);
  }

  /** A batch file: one command line, then `pause`. */
  lemma WindowsLines(cmd: string, last: string)
    requires cmd != [] && '\n' !in cmd && '\r' !in cmd && last == "pause"
    ensures ReadLines(cmd + "\n" + last) == [cmd + "\n", last]
  {
    ClosedLine(cmd);
    ReadLinesLead(cmd + "\n", last);
    ReadLastLine(last);
  }

  /**
   Read back line by line, the Java script for a POSIX shell is the
   `#!/bin/bash` line followed by the command, and the Windows one is the
   command followed by `pause`, as long as neither size holds a line break.
   */
  lemma JavaScriptLines(platform: Platform, serverType: string, xmx: Option<string>, xms: Option<string>)
    requires serverType != "Bedrock"
    requires '\n' !in Shown(xmx) && '\n' !in Shown(xms) && '\r' !in Shown(xmx) && '\r' !in Shown(xms)
    ensures platform == Posix ==>
      ReadLines(StartScript(platform, serverType, xmx, xms).content) == ["#!/bin/bash\n", JavaCommand(xmx, xms)]
    ensures platform == Windows ==>
      ReadLines(StartScript(platform, serverType, xmx, xms).content) == [JavaCommand(xmx, xms) + "\n", "pause"]
  {
    var cmd := JavaCommand(xmx, xms);
    CommandLacks(xmx, xms, '\n');
    CommandLacks(xmx, xms, '\r');
    assert cmd[0] == 'j';
    if platform == Posix {
      PosixLines(cmd);
    } else {
      assert cmd + "\npause" == cmd + "\n" + "pause";
      WindowsLines(cmd, "pause");
    }
  }
}
