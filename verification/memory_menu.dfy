/**
 The tail of the memory menu (`get_memory_menu`): each round validates the
 Xmx and Xms answers with the memory validator, and a round in which both
 are accepted reconciles the pair and ends the menu. Every other round goes
 back to the mode prompt. The rounds are given as a finite sequence of
 answer pairs; total and available RAM are parameters.
 */
module MemoryMenu {
  import opened Optional
  import opened Memory
  import opened Numerals

  /** The pair the menu returns, with the two notices it may print on the way. */
  datatype Choice = Choice(xmx: string, xms: string, adjusted: bool, swapWarning: bool)

  /** One round's answers, whichever mode produced them. */
  datatype Answers = Answers(xmx: string, xms: string)

  datatype Round =
    | Errored          // an empty answer: the bare `False` cannot be unpacked
    | Back             // a refused answer: back to the mode prompt
    | Chosen(choice: Choice)

  // ---------------------------------------------------------------------------
  // The reconciliation as written
  // ---------------------------------------------------------------------------

  /**
   Lines 434-448: an Xms number above the Xmx number makes Xmx the Xms text;
   an Xms number above the available RAM only prints a warning.
   */
  function Reconcile(xmx: string, testXmx: int, xms: string, testXms: int, availableRamGb: real): (r: Choice)
    ensures r.xms == xms
  {
    Choice(if testXms > testXmx then xms else xmx, xms, testXms > testXmx, testXms as real > availableRamGb)
  }

  /** Xmx changes only when the warning is shown, and then it becomes Xms. */
  lemma ReconcileAdjusts(xmx: string, testXmx: int, xms: string, testXms: int, availableRamGb: real)
    ensures var r := Reconcile(xmx, testXmx, xms, testXms, availableRamGb);
      (r.adjusted ==> r.xmx == xms) && (r.xmx != xmx ==> r.adjusted) && (r.adjusted <==> testXms > testXmx)
  {
  }

  /** Reconciling the result again, with Xmx's number following Xmx's text, changes nothing. */
  lemma ReconcileIdempotent(xmx: string, testXmx: int, xms: string, testXms: int, availableRamGb: real)
    ensures var r := Reconcile(xmx, testXmx, xms, testXms, availableRamGb);
      var again := Reconcile(r.xmx, if r.adjusted then testXms else testXmx, r.xms, testXms, availableRamGb);
      again.xmx == r.xmx && again.xms == r.xms && !again.adjusted
  {
  }

  /** The available RAM decides only the warning, never the pair. */
  lemma ReconcileAdvisory(xmx: string, testXmx: int, xms: string, testXms: int, a1: real, a2: real)
    ensures Reconcile(xmx, testXmx, xms, testXms, a1).xmx == Reconcile(xmx, testXmx, xms, testXms, a2).xmx
    ensures Reconcile(xmx, testXmx, xms, testXms, a1).xms == Reconcile(xmx, testXmx, xms, testXms, a2).xms
  {
  }

  // ---------------------------------------------------------------------------
  // One round and the whole menu
  // ---------------------------------------------------------------------------

  /**
   Lines 413-448 for one round: Xmx is validated first and a failure there
   ends the round before Xms is asked.
   */
  function MenuRound(a: Answers, totalRamGb: real, availableRamGb: real): Round
  {
    var vx := Validate(a.xmx, totalRamGb);
    if vx == NotGiven then Errored
    else if vx.Refused? then Back
    else
      var vs := Validate(a.xms, totalRamGb);
      if vs == NotGiven then Errored
      else if vs.Refused? then Back
      else Chosen(Reconcile(vx.size, vx.amount, vs.size, vs.amount, availableRamGb))
  }

  /** A round ends the menu exactly when both answers are accepted, with their texts reconciled. */
  lemma MenuRoundChosen(a: Answers, totalRamGb: real, availableRamGb: real)
    ensures MenuRound(a, totalRamGb, availableRamGb).Chosen? <==>
      Validate(a.xmx, totalRamGb).Accepted? && Validate(a.xms, totalRamGb).Accepted?
    ensures MenuRound(a, totalRamGb, availableRamGb).Chosen? ==>
      var c := MenuRound(a, totalRamGb, availableRamGb).choice;
      c.xms == Validate(a.xms, totalRamGb).size &&
      (c.xmx == Validate(a.xmx, totalRamGb).size || c.xmx == c.xms)
  {
  }

  /** An empty Xmx answer, or an accepted Xmx with an empty Xms answer, is the error path. */
  lemma MenuRoundErrored(a: Answers, totalRamGb: real, availableRamGb: real)
    ensures MenuRound(a, totalRamGb, availableRamGb) == Errored <==>
      a.xmx == [] || (Validate(a.xmx, totalRamGb).Accepted? && a.xms == [])
  {
  }

  /** A round goes back to the mode prompt exactly when an answer it validates is refused. */
  lemma MenuRoundBack(a: Answers, totalRamGb: real, availableRamGb: real)
    ensures MenuRound(a, totalRamGb, availableRamGb) == Back <==>
      Validate(a.xmx, totalRamGb).Refused? ||
      (Validate(a.xmx, totalRamGb).Accepted? && Validate(a.xms, totalRamGb).Refused?)
  {
  }

  /** The choice of the first round that ends the menu; `None` when no round does. */
  function FirstChoice(outcomes: seq<Round>): (r: Option<Choice>)
  {
    if outcomes == [] then None
    else if outcomes[0].Chosen? then Some(outcomes[0].choice)
    else FirstChoice(outcomes[1..])
  }

  /** A choice comes from a round that ends the menu, and every round before it went back. */
  lemma {:induction false} FirstChoiceAt(outcomes: seq<Round>) returns (k: nat)
    requires FirstChoice(outcomes).Some?
    ensures k < |outcomes| && outcomes[k] == Chosen(FirstChoice(outcomes).value)
    ensures forall j :: 0 <= j < k ==> !outcomes[j].Chosen?
  {
    if outcomes[0].Chosen? {
      k := 0;
    } else {
      var k' := FirstChoiceAt(outcomes[1..]);
      k := k' + 1;
      assert outcomes[1..][k'] == outcomes[k];
      forall j | 0 < j < k ensures !outcomes[j].Chosen? {
        assert outcomes[1..][j - 1] == outcomes[j];
      }
    }
  }

  /** No choice means no round ended the menu. */
  lemma {:induction false} FirstChoiceNone(outcomes: seq<Round>, k: nat)
    requires FirstChoice(outcomes).None? && k < |outcomes|
    ensures !outcomes[k].Chosen?
  {
    if k > 0 {
      FirstChoiceNone(outcomes[1..], k - 1);
      assert outcomes[1..][k - 1] == outcomes[k];
    }
  }

  function Outcomes(rounds: seq<Answers>, totalRamGb: real, availableRamGb: real): (r: seq<Round>)
    ensures |r| == |rounds|
    ensures forall i :: 0 <= i < |rounds| ==> r[i] == MenuRound(rounds[i], totalRamGb, availableRamGb)
  {
    seq(|rounds|, i requires 0 <= i < |rounds| => MenuRound(rounds[i], totalRamGb, availableRamGb))
  }

  /** `get_memory_menu` over the rounds the user plays; `None` means the answers ran out first. */
  function Menu(rounds: seq<Answers>, totalRamGb: real, availableRamGb: real): Option<Choice>
  {
    FirstChoice(Outcomes(rounds, totalRamGb, availableRamGb))
  }

  /** The menu loop, round by round; `used` counts the rounds played. */
  method RunMenu(rounds: seq<Answers>, totalRamGb: real, availableRamGb: real) returns (r: Option<Choice>, used: nat)
    ensures used <= |rounds|
    ensures r == Menu(rounds, totalRamGb, availableRamGb)
  {
    ghost var outcomes := Outcomes(rounds, totalRamGb, availableRamGb);
    used := 0;
    while used < |rounds|
      invariant used <= |rounds|
      invariant FirstChoice(outcomes) == FirstChoice(outcomes[used..])
    {
      var round := MenuRound(rounds[used], totalRamGb, availableRamGb);
      assert outcomes[used..][0] == round;
      assert outcomes[used..][1..] == outcomes[used + 1..];
      if round.Chosen? {
        return Some(round.choice), used + 1;
      }
      used := used + 1;
    }
    return None, used;
  }

  /** The menu returns the reconciled pair of the first round whose two answers are both accepted. */
  lemma MenuChosen(rounds: seq<Answers>, totalRamGb: real, availableRamGb: real) returns (k: nat)
    requires Menu(rounds, totalRamGb, availableRamGb).Some?
    ensures k < |rounds| && MenuRound(rounds[k], totalRamGb, availableRamGb) == Chosen(Menu(rounds, totalRamGb, availableRamGb).value)
    ensures forall j :: 0 <= j < k ==> !MenuRound(rounds[j], totalRamGb, availableRamGb).Chosen?
  {
    k := FirstChoiceAt(Outcomes(rounds, totalRamGb, availableRamGb));
  }

  /** A menu that never returns went back (or failed) in every round. */
  lemma MenuNone(rounds: seq<Answers>, totalRamGb: real, availableRamGb: real, k: nat)
    requires Menu(rounds, totalRamGb, availableRamGb).None? && k < |rounds|
    ensures !MenuRound(rounds[k], totalRamGb, availableRamGb).Chosen?
  {
    FirstChoiceNone(Outcomes(rounds, totalRamGb, availableRamGb), k);
  }

  // ---------------------------------------------------------------------------
  // Mixed units as written
  // ---------------------------------------------------------------------------

  /** "2G" is accepted as itself with number 2. */
  lemma TwoGigabytes(totalRamGb: real)
    requires totalRamGb >= 2.0
    ensures Validate(SizeText(2, Gigabytes), totalRamGb) == Accepted(SizeText(2, Gigabytes), 2)
  {
    SizeTextReads(2, Gigabytes);
    TruncWhole(2);
  }

  /** "1G" is accepted as itself with number 1. */
  lemma OneGigabyte(totalRamGb: real)
    requires totalRamGb >= 1.0
    ensures Validate(SizeText(1, Gigabytes), totalRamGb) == Accepted(SizeText(1, Gigabytes), 1)
  {
    SizeTextReads(1, Gigabytes);
    TruncWhole(1);
  }

  /**
   Xmx "2G" with Xms "1.5G": the Xms number 1536 (megabytes) beats the Xmx
   number 2 (gigabytes), so Xmx is cut down to Xms's 1536 megabytes.
   */
  lemma ShrunkXmxAsWritten(totalRamGb: real, availableRamGb: real)
    requires totalRamGb >= 2.0
    ensures MenuRound(Answers(SizeText(2, Gigabytes), "1.5G"), totalRamGb, availableRamGb).Chosen?
    ensures var c := MenuRound(Answers(SizeText(2, Gigabytes), "1.5G"), totalRamGb, availableRamGb).choice;
      c.adjusted && c.xmx == SizeText(1536, Megabytes) && c.xms == SizeText(1536, Megabytes)
  {
    TwoGigabytes(totalRamGb);
    HalfGigabyteAsWritten(totalRamGb);
  }

  /**
   Xmx "1G" with Xms "1536M": both numbers are 1, so nothing is adjusted and
   the pair returned asks for a larger initial heap than maximum heap.
   */
  lemma InvertedPairAsWritten(totalRamGb: real, availableRamGb: real)
    requires totalRamGb >= 1.5
    ensures MenuRound(Answers(SizeText(1, Gigabytes), SizeText(1536, Megabytes)), totalRamGb, availableRamGb).Chosen?
    ensures var c := MenuRound(Answers(SizeText(1, Gigabytes), SizeText(1536, Megabytes)), totalRamGb, availableRamGb).choice;
      !c.adjusted && c.xmx == SizeText(1, Gigabytes) && c.xms == SizeText(1536, Megabytes) &&
      Requested(c.xms) == Some(1.5) && Requested(c.xmx) == Some(1.0)
  {
    var x, s := SizeText(1, Gigabytes), SizeText(1536, Megabytes);
    OneGigabyte(totalRamGb);
    SameSizeAsWritten(totalRamGb);
    RoundAccepted(Answers(x, s), totalRamGb, availableRamGb, x, 1, s, 1);
    RequestedSizeText(1, Gigabytes, 1.0);
    RequestedSizeText(1536, Megabytes, 1.5);
  }

  /** A round whose two answers are accepted returns their reconciliation. */
  lemma RoundAccepted(a: Answers, totalRamGb: real, availableRamGb: real, x: string, nx: int, s: string, ns: int)
    requires Validate(a.xmx, totalRamGb) == Accepted(x, nx)
    requires Validate(a.xms, totalRamGb) == Accepted(s, ns)
    ensures MenuRound(a, totalRamGb, availableRamGb) == Chosen(Reconcile(x, nx, s, ns, availableRamGb))
  {
  }

  // ---------------------------------------------------------------------------
  // The menu with every number in megabytes
  // ---------------------------------------------------------------------------

  /** The reconciliation on megabyte numbers; the warning compares gigabytes with gigabytes. */
  function ReconcileMb(xmx: string, mbXmx: int, xms: string, mbXms: int, availableRamGb: real): (r: Choice)
    ensures r.xms == xms
  {
    Choice(if mbXms > mbXmx then xms else xmx, xms, mbXms > mbXmx, mbXms as real / 1024.0 > availableRamGb)
  }

  /** One round with the validator's numbers in megabytes. */
  function MenuRoundMb(a: Answers, totalRamGb: real, availableRamGb: real): (r: Round)
  {
    var vx := ValidateMb(a.xmx, totalRamGb);
    if vx == NotGiven then Errored
    else if vx.Refused? then Back
    else
      var vs := ValidateMb(a.xms, totalRamGb);
      if vs == NotGiven then Errored
      else if vs.Refused? then Back
      else Chosen(ReconcileMb(vx.size, vx.amount, vs.size, vs.amount, availableRamGb))
  }

  /** The corrected round ends the menu on exactly the same answers and returns the same Xms. */
  lemma MenuRoundMbAgrees(a: Answers, totalRamGb: real, availableRamGb: real)
    ensures MenuRoundMb(a, totalRamGb, availableRamGb).Chosen? <==> MenuRound(a, totalRamGb, availableRamGb).Chosen?
    ensures !MenuRound(a, totalRamGb, availableRamGb).Chosen? ==>
      MenuRoundMb(a, totalRamGb, availableRamGb) == MenuRound(a, totalRamGb, availableRamGb)
    ensures MenuRound(a, totalRamGb, availableRamGb).Chosen? ==>
      MenuRoundMb(a, totalRamGb, availableRamGb).choice.xms == MenuRound(a, totalRamGb, availableRamGb).choice.xms
  {
    var vx, vs := Validate(a.xmx, totalRamGb), Validate(a.xms, totalRamGb);
    ValidateMbAgrees(a.xmx, totalRamGb);
    ValidateMbAgrees(a.xms, totalRamGb);
    if !vx.Accepted? {
      assert ValidateMb(a.xmx, totalRamGb) == vx;
    } else if !vs.Accepted? {
      assert ValidateMb(a.xms, totalRamGb) == vs;
    } else {
      assert MenuRound(a, totalRamGb, availableRamGb).choice.xms == vs.size;
      assert ValidateMb(a.xms, totalRamGb).size == vs.size;
    }
  }

  /**
   Under the correction the pair returned never asks for more initial than
   maximum heap (`gs` against `gx` gigabytes), and the swap warning is shown
   exactly when Xms asks for more than the available RAM.
   */
  lemma MenuRoundMbOrdered(a: Answers, totalRamGb: real, availableRamGb: real) returns (gx: real, gs: real)
    requires MenuRoundMb(a, totalRamGb, availableRamGb).Chosen?
    ensures var c := MenuRoundMb(a, totalRamGb, availableRamGb).choice;
      Requested(c.xmx) == Some(gx) && Requested(c.xms) == Some(gs) && gs <= gx &&
      (c.swapWarning <==> gs > availableRamGb)
  {
    var vx := ValidateMb(a.xmx, totalRamGb);
    var vs := ValidateMb(a.xms, totalRamGb);
    assert vx.Accepted? && vs.Accepted?;
    assert MenuRoundMb(a, totalRamGb, availableRamGb).choice ==
      ReconcileMb(vx.size, vx.amount, vs.size, vs.amount, availableRamGb);
    var hx, hs := vx.amount as real / 1024.0, vs.amount as real / 1024.0;
    ValidateMbAmount(a.xmx, totalRamGb, hx);
    ValidateMbAmount(a.xms, totalRamGb, hs);
    gx, gs := ReconcileMbOrdered(vx.size, vx.amount, vs.size, vs.amount, availableRamGb, hx, hs);
  }

  /** Reconciling two texts that ask for their megabyte numbers keeps Xms within Xmx. */
  lemma ReconcileMbOrdered(xmx: string, mbXmx: int, xms: string, mbXms: int, availableRamGb: real, hx: real, hs: real)
    returns (gx: real, gs: real)
    requires Requested(xmx) == Some(hx) && hx == mbXmx as real / 1024.0
    requires Requested(xms) == Some(hs) && hs == mbXms as real / 1024.0
    ensures var c := ReconcileMb(xmx, mbXmx, xms, mbXms, availableRamGb);
      Requested(c.xmx) == Some(gx) && Requested(c.xms) == Some(gs) && gs <= gx &&
      (c.swapWarning <==> gs > availableRamGb)
  {
    gs := hs;
    if mbXms > mbXmx {
      gx := hs;
    } else {
      gx := hx;
    }
  }
}
