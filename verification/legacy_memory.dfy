/**
 The older memory menu of the command-line entry point: custom sizes are
 parsed in place, without stripping or upper-casing, an Xms above the
 chosen Xmx is refused rather than corrected, and the accepted texts are
 returned as typed. Each prompt is asked again until an answer passes, so
 the answers typed are a finite sequence and running out of them ends the
 menu with `None`.
 */
module LegacyMemory {
  import opened Optional
  import opened Text
  import opened Numerals
  import opened Memory
  import MemoryMenu

  /** How one typed size fares: `ValueError`, `MemoryError` or accepted at `gb` gigabytes. */
  datatype Outcome = Malformed | TooLarge | Fits(gb: real)

  /** The two modes of the menu: pick from the lists, or type the sizes. */
  datatype Mode = Preset | Custom

  /** The sizes the preset lists offer for Xmx and for Xms. */
  const PresetXmx: seq<string> := ["2G", "4G", "8G", "16G"]
  const PresetXms: seq<string> := ["512M", "1G", "2G", "4G"]

  /**
   What a typed size asks for: only a capital `G` or `M` is removed before
   `float()`; without a `G` of either case the number is taken as megabytes,
   whose gigabytes `Gb` divides by 1024.
   */
  function LegacyReading(v: string): Option<Reading>
  {
    if 'G' in Upper(v) then
      match ParseDecimal(RemoveChar(v, 'G'))
      case None => None
      case Some(x) => Some(Reading(Gigabytes, x))
    else
      match ParseDecimal(RemoveChar(v, 'M'))
      case None => None
      case Some(x) => Some(Reading(Megabytes, x))
  }

  /** The unit check, which ignores case. */
  predicate HasUnit(v: string)
  {
    'G' in Upper(v) || 'M' in Upper(v)
  }

  /** One pass of the Xmx prompt. */
  function CheckXmx(v: string, totalRamGb: real): (r: Outcome)
    ensures r.Fits? ==> r.gb <= totalRamGb && HasUnit(v)
    ensures r == TooLarge ==> LegacyReading(v).Some? && Gb(LegacyReading(v).value) > totalRamGb
  {
    match LegacyReading(v)
    case None => Malformed
    case Some(r) =>
      if !HasUnit(v) then Malformed
      else if Gb(r) > totalRamGb then TooLarge
      else Fits(Gb(r))
  }

  /** One pass of the Xms prompt, which also refuses more than the chosen Xmx. */
  function CheckXms(v: string, totalRamGb: real, xmxGb: real): (r: Outcome)
    ensures r.Fits? ==> r.gb <= totalRamGb && r.gb <= xmxGb && HasUnit(v)
    ensures r == TooLarge ==>
      LegacyReading(v).Some? && (Gb(LegacyReading(v).value) > totalRamGb || Gb(LegacyReading(v).value) > xmxGb)
  {
    match LegacyReading(v)
    case None => Malformed
    case Some(r) =>
      if !HasUnit(v) then Malformed
      else if Gb(r) > totalRamGb || Gb(r) > xmxGb then TooLarge
      else Fits(Gb(r))
  }

  /** Upper-casing yields a capital letter exactly where that letter stood in either case. */
  lemma UpperHas(v: string, c: char, lower: char)
    requires 'A' <= c <= 'Z' && lower == LowerChar(c)
    ensures c in Upper(v) <==> c in v || lower in v
  {
    if c in Upper(v) {
      var i :| 0 <= i < |Upper(v)| && Upper(v)[i] == c;
      assert v[i] == c || v[i] == lower;
    }
    if c in v {
      var i :| 0 <= i < |v| && v[i] == c;
      assert Upper(v)[i] == c;
    }
    if lower in v {
      var i :| 0 <= i < |v| && v[i] == lower;
      assert Upper(v)[i] == c;
    }
  }

  /** A lower-case letter makes `float()` fail. */
  lemma LetterNotNumeral(w: string, l: char)
    requires l in w && 'a' <= l <= 'z'
    ensures ParseDecimal(w).None?
  {
    if ParseDecimal(w).Some? {
      LetterNotNumeralChar(l);
      ParseDecimalChars(w, l);
      assert false;
    }
  }

  /** A lower-case letter is no blank, sign, point or digit. */
  lemma LetterNotNumeralChar(l: char)
    requires 'a' <= l <= 'z'
    ensures !(IsSpace(l) || l == '-' || l == '+' || l == '.' || IsDigit(l))
  {
  }

  /** A lower-case letter left in the text after removing `c` makes `float()` fail. */
  lemma LetterSpoils(v: string, c: char, l: char)
    requires l in v && l != c && 'a' <= l <= 'z'
    ensures ParseDecimal(RemoveChar(v, c)).None?
  {
    LetterNotNumeral(RemoveChar(v, c), l);
  }

  /** With a capital `G` both readers take the gigabytes before it. */
  lemma LegacyReadG(v: string)
    requires 'G' in v
    ensures HasUnit(v) && LegacyReading(v).Some? <==> Read(v).Some?
    ensures Read(v).Some? ==> LegacyReading(v) == Read(v)
  {
    UpperHas(v, 'G', 'g');
  }

  /** A lower-case `g` without a capital one spoils both readers. */
  lemma LegacyReadSmallG(v: string)
    requires 'G' !in v && 'g' in v
    ensures LegacyReading(v).None? && Read(v).None?
  {
    UpperHas(v, 'G', 'g');
    LetterSpoils(v, 'G', 'g');
    if 'M' in v {
      LetterSpoils(v, 'M', 'g');
    }
  }

  /** With a capital `M` and no `G` of either case both readers take megabytes. */
  lemma LegacyReadM(v: string)
    requires 'G' !in v && 'g' !in v && 'M' in v
    ensures HasUnit(v) && LegacyReading(v).Some? <==> Read(v).Some?
    ensures Read(v).Some? ==> LegacyReading(v) == Read(v)
  {
    UpperHas(v, 'G', 'g');
    UpperHas(v, 'M', 'm');
  }

  /** A lower-case `m` as the only unit spoils the legacy reader; `Read` finds no unit. */
  lemma LegacyReadSmallM(v: string)
    requires 'G' !in v && 'g' !in v && 'M' !in v && 'm' in v
    ensures LegacyReading(v).None? && Read(v).None?
  {
    UpperHas(v, 'G', 'g');
    LetterSpoils(v, 'M', 'm');
  }

  /** Without any unit letter the legacy check fails and `Read` finds nothing. */
  lemma LegacyReadBare(v: string)
    requires 'G' !in v && 'g' !in v && 'M' !in v && 'm' !in v
    ensures !HasUnit(v) && Read(v).None?
  {
    UpperHas(v, 'G', 'g');
    UpperHas(v, 'M', 'm');
  }

  /**
   The legacy parse is the menu reader applied to the raw text: it reads a
   size exactly when `Read` does, in the same number of gigabytes.
   */
  lemma LegacyRead(v: string)
    ensures HasUnit(v) && LegacyReading(v).Some? <==> Read(v).Some?
    ensures Read(v).Some? ==> LegacyReading(v) == Read(v)
  {
    if 'G' in v {
      LegacyReadG(v);
    } else if 'g' in v {
      LegacyReadSmallG(v);
    } else if 'M' in v {
      LegacyReadM(v);
    } else if 'm' in v {
      LegacyReadSmallM(v);
    } else {
      LegacyReadBare(v);
    }
  }

  /** The Xmx prompt refuses what `Read` cannot read and what exceeds the total, and takes the rest. */
  lemma CheckXmxRead(v: string, totalRamGb: real)
    ensures CheckXmx(v, totalRamGb) == Malformed <==> Read(v).None?
    ensures CheckXmx(v, totalRamGb) == TooLarge <==>
      Read(v).Some? && Gb(Read(v).value) > totalRamGb
    ensures CheckXmx(v, totalRamGb).Fits? <==>
      Read(v).Some? && Gb(Read(v).value) <= totalRamGb
    ensures CheckXmx(v, totalRamGb).Fits? ==> CheckXmx(v, totalRamGb).gb == Gb(Read(v).value)
  {
    LegacyRead(v);
  }

  /** The Xms prompt takes a readable size no larger than the total or the chosen Xmx. */
  lemma CheckXmsRead(v: string, totalRamGb: real, xmxGb: real)
    ensures CheckXms(v, totalRamGb, xmxGb) == Malformed <==> Read(v).None?
    ensures CheckXms(v, totalRamGb, xmxGb).Fits? <==>
      Read(v).Some? && Gb(Read(v).value) <= totalRamGb && Gb(Read(v).value) <= xmxGb
    ensures CheckXms(v, totalRamGb, xmxGb).Fits? ==>
      CheckXms(v, totalRamGb, xmxGb).gb == Gb(Read(v).value)
  {
    LegacyRead(v);
  }

  /** Without a capital `G` or `M`, a size is malformed: "4g", "512m" and "4096" are all refused. */
  lemma LowercaseRefused(v: string, totalRamGb: real, xmxGb: real)
    requires 'G' !in v && 'M' !in v
    ensures CheckXmx(v, totalRamGb) == Malformed
    ensures CheckXms(v, totalRamGb, xmxGb) == Malformed
  {
    CheckXmxRead(v, totalRamGb);
    CheckXmsRead(v, totalRamGb, xmxGb);
  }

  /** On text that is already upper case and stripped, the legacy Xmx prompt agrees with the newer validator. */
  lemma CanonicalAgrees(v: string, totalRamGb: real)
    requires v != [] && Strip(Upper(v)) == v
    ensures CheckXmx(v, totalRamGb).Fits? <==> Validate(v, totalRamGb).Accepted?
    ensures CheckXmx(v, totalRamGb).Fits? ==> Requested(v) == Some(CheckXmx(v, totalRamGb).gb)
  {
    CheckXmxRead(v, totalRamGb);
    ValidateRequested(v, totalRamGb);
  }

  /** The index of the first accepted answer, `None` when no answer is accepted. */
  function FirstFit(outcomes: seq<Outcome>): (r: Option<nat>)
    ensures r.Some? ==> r.value < |outcomes| && outcomes[r.value].Fits?
    ensures r.Some? ==> forall j :: 0 <= j < r.value ==> !outcomes[j].Fits?
    ensures r.None? ==> forall j :: 0 <= j < |outcomes| ==> !outcomes[j].Fits?
  {
    if outcomes == [] then None
    else if outcomes[0].Fits? then Some(0)
    else
      match FirstFit(outcomes[1..])
      case None => None
      case Some(k) =>
        assert forall j :: 0 < j <= k ==> outcomes[j] == outcomes[1..][j - 1];
        Some(k + 1)
  }

  /** The first accepted answer is the only one with no accepted answer before it. */
  lemma {:induction false} FirstFitIs(outcomes: seq<Outcome>, k: nat)
    requires k < |outcomes| && outcomes[k].Fits?
    requires forall j :: 0 <= j < k ==> !outcomes[j].Fits?
    ensures FirstFit(outcomes) == Some(k)
  {
    if k > 0 {
      assert !outcomes[0].Fits?;
      forall j | 0 <= j < k - 1 ensures !outcomes[1..][j].Fits? {
        assert outcomes[1..][j] == outcomes[j + 1];
      }
      FirstFitIs(outcomes[1..], k - 1);
    }
  }

  /** With no answer accepted there is no first one. */
  lemma {:induction false} FirstFitNone(outcomes: seq<Outcome>)
    requires forall j :: 0 <= j < |outcomes| ==> !outcomes[j].Fits?
    ensures FirstFit(outcomes) == None
  {
    if outcomes != [] {
      assert !outcomes[0].Fits?;
      forall j | 0 <= j < |outcomes| - 1 ensures !outcomes[1..][j].Fits? {
        assert outcomes[1..][j] == outcomes[j + 1];
      }
      FirstFitNone(outcomes[1..]);
    }
  }

  /** The Xmx prompt's verdict on each answer typed, one answer at a time. */
  function XmxOutcomes(answers: seq<string>, totalRamGb: real): (r: seq<Outcome>)
    ensures |r| == |answers|
    decreases |answers|
  {
    if answers == [] then []
    else [CheckXmx(answers[0], totalRamGb)] + XmxOutcomes(answers[1..], totalRamGb)
  }

  /** The Xms prompt's verdict, against the chosen Xmx, on each answer typed. */
  function XmsOutcomes(answers: seq<string>, totalRamGb: real, xmxGb: real): (r: seq<Outcome>)
    ensures |r| == |answers|
    decreases |answers|
  {
    if answers == [] then []
    else [CheckXms(answers[0], totalRamGb, xmxGb)] + XmsOutcomes(answers[1..], totalRamGb, xmxGb)
  }

  /** The verdict at each position is the Xmx check of the answer typed there. */
  lemma {:induction false} XmxOutcomesAt(answers: seq<string>, totalRamGb: real, i: nat)
    requires i < |answers|
    ensures XmxOutcomes(answers, totalRamGb)[i] == CheckXmx(answers[i], totalRamGb)
    decreases i
  {
    if i > 0 {
      XmxOutcomesAt(answers[1..], totalRamGb, i - 1);
      assert answers[1..][i - 1] == answers[i];
    }
  }

  /** The verdict at each position is the Xms check of the answer typed there. */
  lemma {:induction false} XmsOutcomesAt(answers: seq<string>, totalRamGb: real, xmxGb: real, i: nat)
    requires i < |answers|
    ensures XmsOutcomes(answers, totalRamGb, xmxGb)[i] == CheckXms(answers[i], totalRamGb, xmxGb)
    decreases i
  {
    if i > 0 {
      XmsOutcomesAt(answers[1..], totalRamGb, xmxGb, i - 1);
      assert answers[1..][i - 1] == answers[i];
    }
  }

  /**
   The custom mode over the answers typed: the Xmx prompt takes answers
   until one passes, then the Xms prompt takes the following ones until one
   passes; the two accepted texts are returned as typed.
   */
  function CustomMemory(answers: seq<string>, totalRamGb: real): Option<MemoryMenu.Answers>
  {
    var xs := XmxOutcomes(answers, totalRamGb);
    match FirstFit(xs)
    case None => None
    case Some(i) =>
      var rest := answers[i + 1..];
      match FirstFit(XmsOutcomes(rest, totalRamGb, xs[i].gb))
      case None => None
      case Some(j) => Some(MemoryMenu.Answers(answers[i], rest[j]))
  }

  /** The whole menu: preset picks come back unchecked, custom sizes go through the prompts. */
  function LegacyMenu(mode: Mode, presetXmx: string, presetXms: string, answers: seq<string>, totalRamGb: real)
    : (r: Option<MemoryMenu.Answers>)
    ensures r.None? ==> mode == Custom
  {
    match mode
    case Preset => Some(MemoryMenu.Answers(presetXmx, presetXms))
    case Custom => CustomMemory(answers, totalRamGb)
  }

  /** A prompt loop: the index of the first answer that passes. */
  method ScanFirst(outcomes: seq<Outcome>) returns (r: Option<nat>)
    ensures r == FirstFit(outcomes)
  {
    var k := 0;
    while k < |outcomes|
      invariant k <= |outcomes|
      invariant forall j :: 0 <= j < k ==> !outcomes[j].Fits?
    {
      if outcomes[k].Fits? {
        FirstFitIs(outcomes, k);
        return Some(k);
      }
      k := k + 1;
    }
    FirstFitNone(outcomes);
    return None;
  }

  /** The custom mode run prompt by prompt. */
  method RunCustom(answers: seq<string>, totalRamGb: real) returns (r: Option<MemoryMenu.Answers>)
    ensures r == CustomMemory(answers, totalRamGb)
  {
    var i := ScanFirst(XmxOutcomes(answers, totalRamGb));
    if i.None? {
      CustomNoXmx(answers, totalRamGb);
      return None;
    }
    r := RunXms(answers, totalRamGb, i.value);
  }

  /** The Xms prompt of custom mode, run once the Xmx prompt has accepted answer `i`. */
  method RunXms(answers: seq<string>, totalRamGb: real, i: nat) returns (r: Option<MemoryMenu.Answers>)
    requires FirstFit(XmxOutcomes(answers, totalRamGb)) == Some(i)
    ensures r == CustomMemory(answers, totalRamGb)
  {
    var rest := answers[i + 1..];
    var j := ScanFirst(XmsOutcomes(rest, totalRamGb, XmxOutcomes(answers, totalRamGb)[i].gb));
    if j.None? {
      CustomNoXms(answers, totalRamGb, i);
      return None;
    }
    CustomMemoryAt(answers, totalRamGb, i, j.value);
    return Some(MemoryMenu.Answers(answers[i], rest[j.value]));
  }

  /** With no Xmx answer passing, custom mode ends empty. */
  lemma CustomNoXmx(answers: seq<string>, totalRamGb: real)
    requires FirstFit(XmxOutcomes(answers, totalRamGb)).None?
    ensures CustomMemory(answers, totalRamGb).None?
  {
  }

  /** With an Xmx answer passing but no Xms answer after it, custom mode ends empty. */
  lemma CustomNoXms(answers: seq<string>, totalRamGb: real, i: nat)
    requires FirstFit(XmxOutcomes(answers, totalRamGb)) == Some(i)
    requires FirstFit(XmsOutcomes(answers[i + 1..], totalRamGb, XmxOutcomes(answers, totalRamGb)[i].gb)).None?
    ensures CustomMemory(answers, totalRamGb).None?
  {
  }

  /** The answer a prompt loop stops at passes that prompt. */
  lemma XmxPicked(answers: seq<string>, totalRamGb: real, i: nat)
    requires FirstFit(XmxOutcomes(answers, totalRamGb)) == Some(i)
    ensures i < |answers| && CheckXmx(answers[i], totalRamGb).Fits?
  {
    XmxOutcomesAt(answers, totalRamGb, i);
  }

  lemma XmsPicked(answers: seq<string>, totalRamGb: real, xmxGb: real, k: nat)
    requires FirstFit(XmsOutcomes(answers, totalRamGb, xmxGb)) == Some(k)
    ensures k < |answers| && CheckXms(answers[k], totalRamGb, xmxGb).Fits?
  {
    XmsOutcomesAt(answers, totalRamGb, xmxGb, k);
  }

  /** Where the two accepted answers of custom mode stand among the answers typed. */
  lemma CustomPicks(answers: seq<string>, totalRamGb: real) returns (i: nat, k: nat)
    requires CustomMemory(answers, totalRamGb).Some?
    ensures FirstFit(XmxOutcomes(answers, totalRamGb)) == Some(i) && i < |answers|
    ensures FirstFit(XmsOutcomes(answers[i + 1..], totalRamGb, XmxOutcomes(answers, totalRamGb)[i].gb)) == Some(k)
    ensures i + 1 + k < |answers|
    ensures CustomMemory(answers, totalRamGb).value == MemoryMenu.Answers(answers[i], answers[i + 1 + k])
  {
    var xs := XmxOutcomes(answers, totalRamGb);
    i := FirstFit(xs).value;
    var rest := answers[i + 1..];
    var ss := XmsOutcomes(rest, totalRamGb, xs[i].gb);
    k := FirstFit(ss).value;
    CustomMemoryAt(answers, totalRamGb, i, k);
    TailIndex(answers, i + 1, k);
  }

  /** Custom mode returns the answers at the two picks. */
  lemma CustomMemoryAt(answers: seq<string>, totalRamGb: real, i: nat, k: nat)
    requires FirstFit(XmxOutcomes(answers, totalRamGb)) == Some(i)
    requires FirstFit(XmsOutcomes(answers[i + 1..], totalRamGb, XmxOutcomes(answers, totalRamGb)[i].gb)) == Some(k)
    ensures CustomMemory(answers, totalRamGb) == Some(MemoryMenu.Answers(answers[i], answers[i + 1..][k]))
  {
    var xs := XmxOutcomes(answers, totalRamGb);
    var rest := answers[i + 1..];
    assert FirstFit(XmsOutcomes(rest, totalRamGb, xs[i].gb)) == Some(k);
  }

  /** Indexing a tail is indexing the whole further on. */
  lemma TailIndex<T>(s: seq<T>, n: nat, k: nat)
    requires n + k < |s|
    ensures s[n..][k] == s[n + k]
  {
  }

  /** The two accepted answers are sizes `Read` understands, Xms within Xmx within the total. */
  lemma CustomBounds(answers: seq<string>, totalRamGb: real, i: nat, k: nat) returns (gx: real, gs: real)
    requires FirstFit(XmxOutcomes(answers, totalRamGb)) == Some(i)
    requires FirstFit(XmsOutcomes(answers[i + 1..], totalRamGb, XmxOutcomes(answers, totalRamGb)[i].gb)) == Some(k)
    ensures i + 1 + k < |answers|
    ensures Read(answers[i]).Some? && Gb(Read(answers[i]).value) == gx
    ensures Read(answers[i + 1 + k]).Some? && Gb(Read(answers[i + 1 + k]).value) == gs
    ensures gs <= gx <= totalRamGb
  {
    XmxPicked(answers, totalRamGb, i);
    XmxOutcomesAt(answers, totalRamGb, i);
    gx := CheckXmx(answers[i], totalRamGb).gb;
    var rest := answers[i + 1..];
    XmsPicked(rest, totalRamGb, gx, k);
    assert rest[k] == answers[i + 1 + k];
    gs := CheckXms(answers[i + 1 + k], totalRamGb, gx).gb;
    CheckXmxRead(answers[i], totalRamGb);
    CheckXmsRead(answers[i + 1 + k], totalRamGb, gx);
  }

  /**
   What custom mode returns: two answers typed in that order, verbatim,
   each a size `Read` understands, with Xms no larger than Xmx and Xmx no
   larger than the total.
   */
  lemma CustomSafe(answers: seq<string>, totalRamGb: real) returns (i: nat, j: nat, gx: real, gs: real)
    requires CustomMemory(answers, totalRamGb).Some?
    ensures i < j < |answers|
    ensures CustomMemory(answers, totalRamGb).value == MemoryMenu.Answers(answers[i], answers[j])
    ensures Read(answers[i]).Some? && Gb(Read(answers[i]).value) == gx
    ensures Read(answers[j]).Some? && Gb(Read(answers[j]).value) == gs
    ensures gs <= gx <= totalRamGb
  {
    var k;
    i, k := PicksOf(answers, totalRamGb);
    j, gx, gs := CustomSafeAt(answers, totalRamGb, i, k);
  }

  /** The picks' answers are what custom mode returns, and they read within bounds. */
  lemma CustomSafeAt(answers: seq<string>, totalRamGb: real, i: nat, k: nat) returns (j: nat, gx: real, gs: real)
    requires FirstFit(XmxOutcomes(answers, totalRamGb)) == Some(i)
    requires FirstFit(XmsOutcomes(answers[i + 1..], totalRamGb, XmxOutcomes(answers, totalRamGb)[i].gb)) == Some(k)
    ensures j == i + 1 + k
    ensures i < j < |answers|
    ensures CustomMemory(answers, totalRamGb).Some?
    ensures CustomMemory(answers, totalRamGb).value == MemoryMenu.Answers(answers[i], answers[j])
    ensures Read(answers[i]).Some? && Gb(Read(answers[i]).value) == gx
    ensures Read(answers[j]).Some? && Gb(Read(answers[j]).value) == gs
    ensures gs <= gx <= totalRamGb
  {
    j := i + 1 + k;
    gx, gs := CustomBounds(answers, totalRamGb, i, k);
    CustomMemoryAt(answers, totalRamGb, i, k);
    TailIndex(answers, i + 1, k);
  }

  /** Custom mode succeeds only when both prompt loops stop. */
  lemma PicksOf(answers: seq<string>, totalRamGb: real) returns (i: nat, k: nat)
    requires CustomMemory(answers, totalRamGb).Some?
    ensures FirstFit(XmxOutcomes(answers, totalRamGb)) == Some(i)
    ensures FirstFit(XmsOutcomes(answers[i + 1..], totalRamGb, XmxOutcomes(answers, totalRamGb)[i].gb)) == Some(k)
  {
    var xs := XmxOutcomes(answers, totalRamGb);
    i := FirstFit(xs).value;
    k := FirstFit(XmsOutcomes(answers[i + 1..], totalRamGb, xs[i].gb)).value;
  }

  /** What the custom mode of the whole menu returns: two answers typed, in that order, verbatim, Xms within Xmx. */
  lemma LegacyMenuCustom(presetXmx: string, presetXms: string, answers: seq<string>, totalRamGb: real)
    returns (i: nat, j: nat)
    requires LegacyMenu(Custom, presetXmx, presetXms, answers, totalRamGb).Some?
    ensures i < j < |answers|
    ensures LegacyMenu(Custom, presetXmx, presetXms, answers, totalRamGb).value == MemoryMenu.Answers(answers[i], answers[j])
    ensures Read(answers[j]).Some? && Read(answers[i]).Some? && Gb(Read(answers[j]).value) <= Gb(Read(answers[i]).value)
  {
    var gx, gs;
    i, j, gx, gs := CustomSafe(answers, totalRamGb);
  }

  /** Every answer before the accepted Xmx was refused by the Xmx prompt. */
  lemma CustomRetries(answers: seq<string>, totalRamGb: real, i: nat, k: nat)
    requires FirstFit(XmxOutcomes(answers, totalRamGb)) == Some(i) && k < i
    ensures CheckXmx(answers[k], totalRamGb) == Malformed || CheckXmx(answers[k], totalRamGb) == TooLarge
  {
    assert !XmxOutcomes(answers, totalRamGb)[k].Fits?;
    XmxOutcomesAt(answers, totalRamGb, k);
  }

  /** "2G" heads the Xmx list and "4G" ends the Xms list. */
  lemma PresetListed(x: string, s: string)
    requires x == "2G" && s == "4G"
    ensures x in PresetXmx && s in PresetXms
  {
    assert PresetXmx[0] == x;
    assert PresetXms[3] == s;
  }

  /** The texts the validator would produce for two and four gigabytes. */
  lemma WholeGigabyteTexts(x: string, s: string)
    requires x == "2G" && s == "4G"
    ensures x == SizeText(2, Gigabytes) && s == SizeText(4, Gigabytes)
  {
    assert IntToString(2) == "2";
    assert IntToString(4) == "4";
  }

  /** Preset picks are returned as picked, even an Xms above the Xmx: "2G" with "4G". */
  lemma PresetUnchecked(x: string, s: string, answers: seq<string>, totalRamGb: real)
    requires x == "2G" && s == "4G"
    ensures x in PresetXmx && s in PresetXms
    ensures LegacyMenu(Preset, x, s, answers, totalRamGb) == Some(MemoryMenu.Answers(x, s))
    ensures Read(x) == Some(Reading(Gigabytes, 2.0)) && Read(s) == Some(Reading(Gigabytes, 4.0))
  {
    PresetListed(x, s);
    WholeGigabyteTexts(x, s);
    SizeTextReads(2, Gigabytes);
    SizeTextReads(4, Gigabytes);
  }
}
