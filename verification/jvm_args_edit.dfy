/**
 The flag-file editor (`edit_jvm_args_file`) as one pure function of its
 inputs: the `java -version` banner, the release picked by hand when the
 banner is not recognised, the file's text (absent or present), the answer
 to the "refresh the suggestions?" question, the mode, and the answers to
 the four flag prompts. The result says how the run ended and what the file
 holds afterwards. The defaults the prompts open with are modelled too.
 */
module JvmArgsEdit {
  import opened Optional
  import opened Text
  import opened Numerals
  import opened JavaVersion
  import opened JvmArgsFile
  import opened JvmArgsRestore
  import opened JvmArgsRewrite

  /** `mode="r"` returns the text; `mode="w"` runs the prompts and saves. */
  datatype Mode = ReadMode | WriteMode

  /** The four prompts' answers, or a Ctrl+C during any of them. */
  datatype Answers =
    | Interrupted
    | Answered(gc: string, memory: seq<string>, performance: seq<string>, others: seq<string>)

  /** How a run ends; `file` is what the flag file holds afterwards. */
  datatype Outcome =
    | NoJava                          // no Java banner: return at once
    | Declined                        // unsupported release and "Sair" picked
    | NoFlagList                      // no flag table for the release
    | Crashed(file: string)           // `float()` raises on the recorded version
    | Shown(file: string, text: string)
    | Cancelled(file: string)         // prompts interrupted: nothing written
    | Saved(file: string)

  // ---------------------------------------------------------------------------
  // Lines 13-44: the release to work with
  // ---------------------------------------------------------------------------

  /** The recognised release, or else the one picked by hand (`None` is "Sair"). */
  function Release(banner: string, manual: Option<Bucket>): (r: Option<Bucket>)
    ensures FormatJavaVersionString(banner).Some? ==> r == FormatJavaVersionString(banner)
    ensures FormatJavaVersionString(banner).None? ==> r == manual
  {
    match FormatJavaVersionString(banner)
    case Some(b) => Some(b)
    case None => manual
  }

  // ---------------------------------------------------------------------------
  // Lines 46-85: regenerate when missing, then compare the recorded version
  // ---------------------------------------------------------------------------

  /** A missing or empty file is first written fresh by the restorer. */
  function Prepared(file: Option<string>, b: Bucket, l: FlagLists): (r: string)
    ensures r != []
    ensures file.Some? && file.value != [] ==> r == file.value
  {
    if file.None? || file.value == [] then
      assert HeaderLine[0] == '#';
      RestoreText(Name(b), l)
    else file.value
  }

  /**
   What the version test makes of a file: the recorded version reads as the
   running one, reads as another one, or makes `float()` raise (no version
   line, an empty field, or text that is not a number).
   */
  datatype Check = Compatible | Mismatch | Unreadable

  /** Lines 64-85: the recorded version against the running release. */
  function VersionCheck(text: string, b: Bucket): (r: Check)
    ensures r == Compatible <==>
      exists s :: RecordedVersion(ReadLines(text)) == Some(s) && s != [] && ParseDecimal(s) == Some(Value(b))
    ensures r == Unreadable <==>
      forall s :: RecordedVersion(ReadLines(text)) == Some(s) ==> s == [] || ParseDecimal(s).None?
  {
    var rec := RecordedVersion(ReadLines(text));
    if rec.Some? && rec.value != [] then
      var x := ParseDecimal(rec.value);
      if x.None? then Unreadable
      else if x == Some(Value(b)) then Compatible
      else Mismatch
    else Unreadable
  }

  /** The file after the version test: kept, refreshed on a confirmed mismatch, or `None` on a crash. */
  function Checked(text: string, b: Bucket, l: FlagLists, overwrite: bool): (r: Option<string>)
    ensures r.None? <==> VersionCheck(text, b) == Unreadable
    ensures r.Some? && r.value != text ==> VersionCheck(text, b) == Mismatch && overwrite
  {
    match VersionCheck(text, b)
    case Unreadable => None
    case Compatible => Some(text)
    case Mismatch => Some(if overwrite then RestoreText(Name(b), l) else text)
  }

  // ---------------------------------------------------------------------------
  // Lines 143-226: the prompts and the selected set
  // ---------------------------------------------------------------------------

  /** The first option whose normalized text is active (`next(...)` without its fallback). */
  function FirstActive(options: seq<string>, active: seq<string>): (r: Option<string>)
    ensures r.Some? ==> r.value in options && Normalize(r.value) in active
    ensures r.None? ==> forall k :: 0 <= k < |options| ==> Normalize(options[k]) !in active
  {
    if |options| == 0 then None
    else if Normalize(options[0]) in active then Some(options[0])
    else FirstActive(options[1..], active)
  }

  /** It is the first such option, at `k`: every option before it is inactive. */
  lemma {:induction false} FirstActiveIsFirst(options: seq<string>, active: seq<string>) returns (k: nat)
    requires FirstActive(options, active).Some?
    ensures k < |options| && options[k] == FirstActive(options, active).value
    ensures forall j :: 0 <= j < k ==> Normalize(options[j]) !in active
  {
    if Normalize(options[0]) in active {
      k := 0;
    } else {
      var tail := options[1..];
      assert FirstActive(options, active) == FirstActive(tail, active);
      var k' := FirstActiveIsFirst(tail, active);
      k := k' + 1;
      InactiveBefore(options, active, k');
    }
  }

  /** An inactive head in front of a tail whose first `k` options are inactive. */
  lemma InactiveBefore(options: seq<string>, active: seq<string>, k: nat)
    requires k < |options| - 1 && Normalize(options[0]) !in active
    requires forall j :: 0 <= j < k ==> Normalize(options[1..][j]) !in active
    ensures options[k + 1] == options[1..][k]
    ensures forall j :: 0 <= j < k + 1 ==> Normalize(options[j]) !in active
  {
    forall j | 0 < j < k + 1 ensures Normalize(options[j]) !in active {
      assert options[j] == options[1..][j - 1];
    }
  }

  /** The GC prompt's starting choice: the first active option, else the first; none without options. */
  function DefaultGc(options: seq<string>, active: seq<string>): (r: Option<string>)
    ensures r.None? <==> options == []
    ensures r.Some? ==> r.value in options
    ensures (exists k :: 0 <= k < |options| && Normalize(options[k]) in active) ==> r == FirstActive(options, active)
    ensures (forall k :: 0 <= k < |options| ==> Normalize(options[k]) !in active) && options != []
      ==> r == Some(options[0])
  {
    match FirstActive(options, active)
    case Some(f) => Some(f)
    case None => if options == [] then None else Some(options[0])
  }

  /** The options a checkbox prompt opens with ticked: those that are active. */
  function PreChecked(options: seq<string>, active: seq<string>): (r: seq<string>)
    ensures forall f :: f in r <==> f in options && f in active
    ensures |r| <= |options|
  {
    if |options| == 0 then []
    else
      var rest := PreChecked(options[1..], active);
      assert forall f :: f in options <==> f == options[0] || f in options[1..];
      if options[0] in active then [options[0]] + rest else rest
  }

  /** What each prompt opens with; the Others prompt is given plain choices, so nothing is ticked there. */
  datatype Defaults = Defaults(gc: Option<string>, memory: seq<string>, performance: seq<string>, others: seq<string>)

  function PromptDefaults(p: FlagSections): (r: Defaults)
    ensures r.others == []
    ensures forall f :: f in r.memory <==> f in p.memory && f in p.active
    ensures forall f :: f in r.performance <==> f in p.performance && f in p.active
    ensures r.gc.None? <==> p.gc == []
  {
    Defaults(DefaultGc(p.gc, p.active), PreChecked(p.memory, p.active), PreChecked(p.performance, p.active), [])
  }

  /**
   The set the rewrite activates: the GC answer when it is non-empty, and the
   three checkbox answers; a prompt without options is skipped and adds nothing.
   */
  function Chosen(p: FlagSections, gc: string, memory: seq<string>, performance: seq<string>,
                  others: seq<string>): (r: set<string>)
    ensures forall f :: f in r <==>
      (p.gc != [] && gc != [] && f == gc)
      || (p.memory != [] && f in memory)
      || (p.performance != [] && f in performance)
      || (p.others != [] && f in others)
  {
    SelectedSet(if p.gc != [] && gc != [] then Some(gc) else None,
                if p.memory != [] then memory else [],
                if p.performance != [] then performance else [],
                if p.others != [] then others else [])
  }

  /** A flag is selected exactly when a prompt that was shown returned it. */
  lemma ChosenMembers(p: FlagSections, gc: string, memory: seq<string>, performance: seq<string>,
                      others: seq<string>, f: string)
    ensures f in Chosen(p, gc, memory, performance, others) <==>
      (p.gc != [] && gc != [] && f == gc)
      || (p.memory != [] && f in memory)
      || (p.performance != [] && f in performance)
      || (p.others != [] && f in others)
  {
  }

  // ---------------------------------------------------------------------------
  // The whole run
  // ---------------------------------------------------------------------------

  /** Lines 94-241 on the file as it stands after the version test. */
  function Finish(t: string, mode: Mode, answers: Answers): (r: Outcome)
    ensures r.Shown? <==> mode.ReadMode?
    ensures r.Shown? ==> r.file == t && r.text == UniversalNewlines(t)
    ensures r.Cancelled? <==> mode.WriteMode? && answers.Interrupted?
    ensures r.Cancelled? ==> r.file == t
    ensures r.Shown? || r.Cancelled? || r.Saved?
  {
    if mode.ReadMode? then Shown(t, UniversalNewlines(t))
    else
      var lines := ReadLines(t);
      match answers
      case Interrupted => Cancelled(t)
      case Answered(gc, memory, performance, others) =>
        Saved(SavedText(lines, Chosen(ParseFlagFile(lines), gc, memory, performance, others)))
  }

  /** Lines 63-241 once the release, its flag lists and the (possibly regenerated) text are known. */
  function Continue(b: Bucket, l: FlagLists, text: string, overwrite: bool,
                    mode: Mode, answers: Answers): (r: Outcome)
    ensures r.Crashed? <==> VersionCheck(text, b) == Unreadable
    ensures r.Crashed? ==> r.file == text
    ensures r.Crashed? || r.Shown? || r.Cancelled? || r.Saved?
  {
    match Checked(text, b, l, overwrite)
    case None => Crashed(text)
    case Some(t) => Finish(t, mode, answers)
  }

  function Edit(banner: string, manual: Option<Bucket>, file: Option<string>, overwrite: bool,
                mode: Mode, answers: Answers): (r: Outcome)
    ensures banner == [] ==> r == NoJava
    ensures banner != [] && Release(banner, manual).None? ==> r == Declined
  {
    if banner == [] then NoJava
    else
      match Release(banner, manual)
      case None => Declined
      case Some(b) =>
        match DetermineJvmArgsList(Name(b))
        case None => NoFlagList
        case Some(l) => Continue(b, l, Prepared(file, b, l), overwrite, mode, answers)
  }

  /**
   Once a release is settled, the run goes on with that release's flag table
   and the file as prepared; it never reaches the missing-table error.
   */
  lemma EditRelease(banner: string, manual: Option<Bucket>, file: Option<string>, overwrite: bool,
                    mode: Mode, answers: Answers, b: Bucket)
    requires banner != [] && Release(banner, manual) == Some(b)
    ensures Edit(banner, manual, file, overwrite, mode, answers)
      == Continue(b, FlagTable(b), Prepared(file, b, FlagTable(b)), overwrite, mode, answers)
    ensures Edit(banner, manual, file, overwrite, mode, answers) != NoFlagList
  {
    DetermineForBucket(b);
  }

  /** A file that passes the version test goes to the mode unchanged. */
  lemma ContinueCompatible(b: Bucket, l: FlagLists, text: string, overwrite: bool, mode: Mode, answers: Answers)
    requires VersionCheck(text, b) == Compatible
    ensures Continue(b, l, text, overwrite, mode, answers) == Finish(text, mode, answers)
  {
  }

  /** On a mismatch the confirmation decides whether the mode sees a fresh file or the old one. */
  lemma ContinueMismatch(b: Bucket, l: FlagLists, text: string, overwrite: bool, mode: Mode, answers: Answers)
    requires VersionCheck(text, b) == Mismatch
    ensures overwrite ==>
      Continue(b, l, text, overwrite, mode, answers) == Finish(RestoreText(Name(b), l), mode, answers)
    ensures !overwrite ==> Continue(b, l, text, overwrite, mode, answers) == Finish(text, mode, answers)
  {
  }

  // ---------------------------------------------------------------------------
  // Properties of a run
  // ---------------------------------------------------------------------------

  /** A freshly restored file records the running release, so it always passes the version test. */
  lemma RestoredCompatible(b: Bucket, l: FlagLists)
    ensures VersionCheck(RestoreText(Name(b), l), b) == Compatible
  {
    BucketVersionText(b);
    RecordedRestored(Name(b), l);
    NameValue(b);
  }

  /**
   With a release settled and the file missing or empty, the editor writes
   the release's suggestions, all commented out, and shows them.
   */
  lemma EditFreshFile(banner: string, manual: Option<Bucket>, file: Option<string>, b: Bucket,
                      overwrite: bool, answers: Answers)
    requires banner != [] && Release(banner, manual) == Some(b)
    requires file.None? || file == Some([])
    ensures Edit(banner, manual, file, overwrite, ReadMode, answers)
      == Shown(RestoreText(Name(b), FlagTable(b)), UniversalNewlines(RestoreText(Name(b), FlagTable(b))))
  {
    var l := FlagTable(b);
    EditRelease(banner, manual, file, overwrite, ReadMode, answers, b);
    RestoredCompatible(b, l);
    ContinueCompatible(b, l, RestoreText(Name(b), l), overwrite, ReadMode, answers);
  }

  /** A file written for another release is kept unless the user agrees to refresh it. */
  lemma EditMismatchKept(banner: string, manual: Option<Bucket>, file: string, b: Bucket,
                         mode: Mode, answers: Answers)
    requires banner != [] && Release(banner, manual) == Some(b)
    requires file != [] && VersionCheck(file, b) == Mismatch
    ensures Edit(banner, manual, Some(file), false, mode, answers) == Finish(file, mode, answers)
  {
    EditRelease(banner, manual, Some(file), false, mode, answers, b);
    ContinueMismatch(b, FlagTable(b), file, false, mode, answers);
  }

  /** On a confirmed mismatch the file is rewritten and then matches the running release. */
  lemma EditMismatchRefreshed(banner: string, manual: Option<Bucket>, file: string, b: Bucket,
                              mode: Mode, answers: Answers)
    requires banner != [] && Release(banner, manual) == Some(b)
    requires file != [] && VersionCheck(file, b) == Mismatch
    ensures Edit(banner, manual, Some(file), true, mode, answers)
      == Finish(RestoreText(Name(b), FlagTable(b)), mode, answers)
    ensures VersionCheck(RestoreText(Name(b), FlagTable(b)), b) == Compatible
  {
    EditRelease(banner, manual, Some(file), true, mode, answers, b);
    ContinueMismatch(b, FlagTable(b), file, true, mode, answers);
    RestoredCompatible(b, FlagTable(b));
  }

  /** A non-empty file with no version line makes the version test raise, whatever the answers. */
  lemma EditNoVersionLine(banner: string, manual: Option<Bucket>, file: string, b: Bucket,
                          overwrite: bool, mode: Mode, answers: Answers)
    requires banner != [] && Release(banner, manual) == Some(b)
    requires file != [] && RecordedVersion(ReadLines(file)).None?
    ensures Edit(banner, manual, Some(file), overwrite, mode, answers) == Crashed(file)
  {
    EditRelease(banner, manual, Some(file), overwrite, mode, answers, b);
    assert VersionCheck(file, b) == Unreadable;
  }

  /**
   Saving a compatible file: the written text parses to the same options, and
   the active flags are exactly the options the shown prompts returned.
   */
  lemma EditSaves(banner: string, manual: Option<Bucket>, file: string, b: Bucket, overwrite: bool,
                  gc: string, memory: seq<string>, performance: seq<string>, others: seq<string>)
    requires banner != [] && Release(banner, manual) == Some(b)
    requires file != [] && VersionCheck(file, b) == Compatible
    ensures var lines := ReadLines(file);
      var selected := Chosen(ParseFlagFile(lines), gc, memory, performance, others);
      Edit(banner, manual, Some(file), overwrite, WriteMode, Answered(gc, memory, performance, others))
        == Saved(SavedText(lines, selected))
      && Reparsed(ParseFlagFile(ReadLines(SavedText(lines, selected))), ParseFlagFile(lines), selected)
  {
    var answers := Answered(gc, memory, performance, others);
    EditRelease(banner, manual, Some(file), overwrite, WriteMode, answers, b);
    ContinueCompatible(b, FlagTable(b), file, overwrite, WriteMode, answers);
    ParseSaved(file, Chosen(ParseFlagFile(ReadLines(file)), gc, memory, performance, others));
  }

  /** An interrupted prompt leaves a compatible file as it was. */
  lemma EditInterrupted(banner: string, manual: Option<Bucket>, file: string, b: Bucket, overwrite: bool)
    requires banner != [] && Release(banner, manual) == Some(b)
    requires file != [] && VersionCheck(file, b) == Compatible
    ensures Edit(banner, manual, Some(file), overwrite, WriteMode, Interrupted) == Cancelled(file)
  {
    EditRelease(banner, manual, Some(file), overwrite, WriteMode, Interrupted, b);
    ContinueCompatible(b, FlagTable(b), file, overwrite, WriteMode, Interrupted);
  }

  /** Every option the parse yields is already normalized. */
  lemma {:induction false} ParsedNormal(lines: seq<string>, sec: Section)
    ensures forall f :: f in AllOptions(ParseFrom(lines, sec)) ==> Normalize(f) == f
    decreases |lines|
  {
    if |lines| > 0 {
      var k := Classify(lines[0]);
      match k
      case Blank => ParsedNormal(lines[1..], sec);
      case Other => ParsedNormal(lines[1..], sec);
      case Marker(s) => ParsedNormal(lines[1..], s);
      case Flag(f, act) =>
        ParsedNormal(lines[1..], sec);
    }
  }

  /** Prompt defaults over a reparsed file: a checkbox ticks exactly the selected options. */
  lemma ReparsedDefaults(after: FlagSections, before: FlagSections, selected: set<string>)
    requires Reparsed(after, before, selected)
    ensures var d := PromptDefaults(after);
      (forall f :: f in d.memory <==> f in before.memory && f in selected)
      && (forall f :: f in d.performance <==> f in before.performance && f in selected)
      && (d.gc.None? <==> before.gc == [])
  {
  }

  /** The GC default over a reparsed file is the one selected GC option. */
  lemma ReparsedGc(after: FlagSections, before: FlagSections, selected: set<string>, g: string)
    requires Reparsed(after, before, selected)
    requires forall f :: f in AllOptions(after) ==> Normalize(f) == f
    requires g in before.gc && g in selected
    requires forall h :: h in before.gc && h in selected ==> h == g
    ensures DefaultGc(after.gc, after.active) == Some(g)
  {
    assert g in AllOptions(after) && g in AllOptions(before);
    assert Normalize(g) in after.active;
    var r := FirstActive(after.gc, after.active);
    if r.Some? {
      assert r.value in AllOptions(after);
      assert Normalize(r.value) == r.value;
    }
  }

  /**
   After a save, the next edit opens every checkbox with exactly the options
   that were selected ticked, and every section offers the same options.
   */
  lemma SavedDefaults(text: string, selected: set<string>)
    ensures var before := ParseFlagFile(ReadLines(text));
      var d := PromptDefaults(ParseFlagFile(ReadLines(SavedText(ReadLines(text), selected))));
      (forall f :: f in d.memory <==> f in before.memory && f in selected)
      && (forall f :: f in d.performance <==> f in before.performance && f in selected)
      && (d.gc.None? <==> before.gc == [])
  {
    ParseSaved(text, selected);
    ReparsedDefaults(ParseFlagFile(ReadLines(SavedText(ReadLines(text), selected))),
                     ParseFlagFile(ReadLines(text)), selected);
  }

  /** After a save with one GC option selected, the next GC prompt opens on that option. */
  lemma SavedGcDefault(text: string, selected: set<string>, g: string)
    requires g in ParseFlagFile(ReadLines(text)).gc && g in selected
    requires forall h :: h in ParseFlagFile(ReadLines(text)).gc && h in selected ==> h == g
    ensures PromptDefaults(ParseFlagFile(ReadLines(SavedText(ReadLines(text), selected)))).gc == Some(g)
  {
    var saved := ReadLines(SavedText(ReadLines(text), selected));
    ParseSaved(text, selected);
    ParsedNormal(saved, Others);
    ReparsedGc(ParseFlagFile(saved), ParseFlagFile(ReadLines(text)), selected, g);
  }
}
