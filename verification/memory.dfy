/**
 The memory-size validator (`validate_mem_config`). A size such as "4G",
 "1.5G" or "512M" is checked against the machine's total RAM, passed in
 here, and turned into the text handed to the JVM plus a number the memory
 menu compares. That number is in gigabytes for whole gigabytes and for
 megabyte input, but in megabytes for fractional gigabytes: `Validate`
 keeps this as written, `ValidateMb` is the evidently intended variant.
 */
module Memory {
  import opened Optional
  import opened Text
  import opened Numerals

  /** Why a size was refused; the program answers `(False, None)` for both. */
  datatype Refusal = BadFormat | OverTotal

  datatype Validation =
    | NotGiven                              // empty input: a bare `False`
    | Refused(why: Refusal)                 // `(False, None)`
    | Accepted(size: string, amount: int)   // the JVM's text and the number to compare

  datatype Unit = Gigabytes | Megabytes

  function Letter(u: Unit): char
  {
    if u == Gigabytes then 'G' else 'M'
  }

  /** The text `str(k)` followed by the unit letter, as the validator writes sizes. */
  function SizeText(k: int, u: Unit): string
  {
    IntToString(k) + [Letter(u)]
  }

  /** A size as read: its unit and the number written before the unit letter. */
  datatype Reading = Reading(unit: Unit, number: real)

  // ---------------------------------------------------------------------------
  // The validator as written
  // ---------------------------------------------------------------------------

  /**
   Lines 78-87 on the upper-cased, stripped text: a text holding `G` is read
   in gigabytes, else one holding `M` in megabytes; every copy of the letter
   is removed before `float()` reads the rest. `None` is the `ValueError`.
   */
  function Read(v: string): (r: Option<Reading>)
    ensures r.Some? ==> Letter(r.value.unit) in v
    ensures r.Some? && r.value.unit == Megabytes ==> 'G' !in v
    ensures 'G' !in v && 'M' !in v ==> r.None?
  {
    if 'G' in v then
      match ParseDecimal(RemoveChar(v, 'G'))
      case None => None
      case Some(x) => Some(Reading(Gigabytes, x))
    else if 'M' in v then
      match ParseDecimal(RemoveChar(v, 'M'))
      case None => None
      case Some(x) => Some(Reading(Megabytes, x))
    else None
  }

  /** The size in gigabytes; megabytes are divided by 1024. */
  function Gb(r: Reading): real
  {
    if r.unit == Gigabytes then r.number else r.number / 1024.0
  }

  /**
   Lines 103-113, from the unit and the size in gigabytes: a whole number of
   gigabytes stays in `G` with that number; a fraction becomes whole megabytes
   with the megabytes as number; megabyte input keeps `M` but hands back the
   truncated gigabytes.
   */
  function Sized(u: Unit, g: real): (r: Validation)
    ensures r.Accepted?
  {
    if u == Gigabytes then
      if g == Trunc(g) as real then Accepted(SizeText(Trunc(g), Gigabytes), Trunc(g))
      else Accepted(SizeText(Trunc(g * 1024.0), Megabytes), Trunc(g * 1024.0))
    else Accepted(SizeText(Trunc(g * 1024.0), Megabytes), Trunc(g))
  }

  /**
   `validate_mem_config(value)` with `total_ram_gb` as a parameter: more than
   the total is refused, exactly the total is accepted, and there is no
   lower bound.
   */
  function Validate(value: string, totalRamGb: real): (r: Validation)
    ensures r == NotGiven <==> value == []
  {
    if value == [] then NotGiven
    else
      match Read(Strip(Upper(value)))
      case None => Refused(BadFormat)
      case Some(reading) =>
        if Gb(reading) > totalRamGb then Refused(OverTotal) else Sized(reading.unit, Gb(reading))
  }

  // ---------------------------------------------------------------------------
  // What a size text asks for
  // ---------------------------------------------------------------------------

  /** The memory a text asks for, in gigabytes; `None` when it has no unit or its number does not read. */
  function Requested(value: string): Option<real>
  {
    match Read(Strip(Upper(value)))
    case None => None
    case Some(reading) => Some(Gb(reading))
  }

  /**
   A non-empty size is refused as malformed exactly when it asks for nothing
   readable, refused as too large exactly when it asks for more than the
   total, and accepted otherwise.
   */
  lemma ValidateRequested(value: string, totalRamGb: real)
    requires value != []
    ensures Validate(value, totalRamGb) == Refused(BadFormat) <==> Requested(value).None?
    ensures Validate(value, totalRamGb) == Refused(OverTotal) <==>
      Requested(value).Some? && Requested(value).value > totalRamGb
    ensures Validate(value, totalRamGb).Accepted? <==>
      Requested(value).Some? && Requested(value).value <= totalRamGb
  {
    match Read(Strip(Upper(value)))
    case None =>
    case Some(reading) =>
      if Gb(reading) <= totalRamGb {
        assert Sized(reading.unit, Gb(reading)).Accepted?;
      }
  }

  /** Only the upper-cased text matters: `4g` and `4G` are the same size. */
  lemma ValidateIgnoresCase(value: string, totalRamGb: real)
    ensures Validate(Upper(value), totalRamGb) == Validate(value, totalRamGb)
  {
    UpperTwice(value);
  }

  lemma UpperTwice(s: string)
    ensures Upper(Upper(s)) == Upper(s)
  {
    var u := Upper(s);
    forall i | 0 <= i < |s| ensures Upper(u)[i] == u[i] {
      assert u[i] == UpperChar(s[i]);
    }
  }

  // ---------------------------------------------------------------------------
  // The texts the validator produces
  // ---------------------------------------------------------------------------

  /** The printed number holds only digits and a leading minus. */
  lemma IntToStringPlain(k: int)
    ensures forall i :: 0 <= i < |IntToString(k)| ==>
      IntToString(k)[i] == '-' || IsDigit(IntToString(k)[i])
  {
    var d := IntToString(k);
    if k < 0 {
      forall i | 0 <= i < |d| ensures d[i] == '-' || IsDigit(d[i]) {
        if i > 0 {
          assert d[i] == d[1..][i - 1];
        }
      }
    }
  }

  /** A character of a printed size: a digit, the point, a minus or a unit letter. */
  predicate SizeChar(c: char)
  {
    c == '-' || c == '.' || IsDigit(c) || c == 'G' || c == 'M'
  }

  /** Upper-casing and stripping leave a text of size characters alone. */
  lemma SizeCharsCanonical(s: string)
    requires forall i :: 0 <= i < |s| ==> SizeChar(s[i])
    ensures Strip(Upper(s)) == s
  {
    forall i | 0 <= i < |s| ensures UpperChar(s[i]) == s[i] {
    }
    assert Upper(s) == s;
    StripNoSpace(s);
  }

  /**
   A numeral with no unit letter of its own, followed by a unit letter, is
   read as that numeral in that unit.
   */
  lemma ReadNumeral(d: string, u: Unit, x: real)
    requires 'G' !in d && 'M' !in d
    requires ParseDecimal(d) == Some(x)
    ensures Read(d + [Letter(u)]) == Some(Reading(u, x))
  {
    var c := Letter(u);
    var s := d + [c];
    assert s[|d|] == c;
    RemoveCharAppend(d, [c], c);
    RemoveAbsentChar(d, c);
    assert RemoveChar([c], c) == [];
    assert RemoveChar(s, c) == d;
    if u == Gigabytes {
      assert 'G' in s;
    } else {
      assert 'G' !in s && 'M' in s;
    }
  }

  /** A produced size is made of size characters only, with its unit letter last. */
  lemma SizeTextChars(k: int, u: Unit)
    ensures forall i :: 0 <= i < |SizeText(k, u)| ==> SizeChar(SizeText(k, u)[i])
    ensures 'G' !in IntToString(k) && 'M' !in IntToString(k)
  {
    var d := IntToString(k);
    IntToStringPlain(k);
    var s := SizeText(k, u);
    forall i | 0 <= i < |s| ensures SizeChar(s[i]) {
      if i < |d| {
        assert s[i] == d[i];
      }
    }
  }

  /** A produced size reads back as its number in its unit. */
  lemma SizeTextReads(k: int, u: Unit)
    ensures Strip(Upper(SizeText(k, u))) == SizeText(k, u)
    ensures Read(SizeText(k, u)) == Some(Reading(u, k as real))
  {
    SizeTextChars(k, u);
    SizeCharsCanonical(SizeText(k, u));
    IntToStringRoundTrip(k);
    ReadNumeral(IntToString(k), u, k as real);
  }

  /** A produced size asks for its number in its unit, `x` gigabytes. */
  lemma RequestedSizeText(k: int, u: Unit, x: real)
    requires Gb(Reading(u, k as real)) == x
    ensures Requested(SizeText(k, u)) == Some(x)
  {
    SizeTextReads(k, u);
  }

  /** The validator's texts, from the unit and the size in gigabytes. */
  lemma SizedText(u: Unit, g: real) returns (k: int, v: Unit)
    ensures Sized(u, g).size == SizeText(k, v)
    ensures v == Gigabytes ==> u == Gigabytes && k as real == g
    ensures v == Megabytes ==> k == Trunc(g * 1024.0)
  {
    if u == Gigabytes && g == Trunc(g) as real {
      k, v := Trunc(g), Gigabytes;
    } else {
      k, v := Trunc(g * 1024.0), Megabytes;
    }
  }

  /**
   The number the validator hands back with its text: gigabyte input hands
   back the number of the text (whole gigabytes, or `int(v * 1024)`
   megabytes for a fraction); megabyte input hands back `int()` of the
   gigabytes, whatever the text says.
   */
  lemma SizedAmount(u: Unit, g: real) returns (k: int, v: Unit)
    ensures Sized(u, g).size == SizeText(k, v)
    ensures v == Gigabytes ==> u == Gigabytes && k as real == g
    ensures v == Megabytes ==> k == Trunc(g * 1024.0)
    ensures u == Gigabytes ==> Sized(u, g).amount == k
    ensures u == Megabytes ==> v == Megabytes && Sized(u, g).amount == Trunc(g)
  {
    if u == Gigabytes && g == Trunc(g) as real {
      k, v := Trunc(g), Gigabytes;
    } else {
      k, v := Trunc(g * 1024.0), Megabytes;
    }
  }

  /** The validator reproduces the text of a size it reads back. */
  lemma SizedOfText(k: int, u: Unit)
    ensures Sized(u, Gb(Reading(u, k as real))).size == SizeText(k, u)
  {
    TruncWhole(k);
    if u == Megabytes {
      assert (k as real / 1024.0) * 1024.0 == k as real;
    }
  }

  /** An accepted size is what `Sized` makes of the request. */
  lemma AcceptedSized(value: string, totalRamGb: real) returns (u: Unit)
    requires Validate(value, totalRamGb).Accepted?
    ensures Requested(value).Some? && Requested(value).value <= totalRamGb
    ensures Validate(value, totalRamGb) == Sized(u, Requested(value).value)
  {
    var reading := Read(Strip(Upper(value))).value;
    u := reading.unit;
  }

  /** Every accepted size is a printed whole number followed by a unit letter. */
  lemma SizeShapeOf(value: string, totalRamGb: real) returns (k: int, u: Unit)
    requires Validate(value, totalRamGb).Accepted?
    ensures Validate(value, totalRamGb).size == SizeText(k, u)
    ensures u == Gigabytes ==> k as real == Requested(value).value
    ensures u == Megabytes ==> k == Trunc(Requested(value).value * 1024.0)
  {
    var w := AcceptedSized(value, totalRamGb);
    k, u := SizedText(w, Requested(value).value);
  }

  /**
   The accepted text asks for the request cut down to whole megabytes: it is
   exact for whole gigabytes and loses less than one megabyte otherwise.
   */
  lemma AcceptedSize(value: string, totalRamGb: real)
    requires Validate(value, totalRamGb).Accepted?
    requires Requested(value).Some? && Requested(value).value >= 0.0
    ensures Requested(Validate(value, totalRamGb).size).Some?
    ensures var asked := Requested(value).value;
      var kept := Requested(Validate(value, totalRamGb).size).value;
      kept <= asked < kept + 1.0 / 1024.0
  {
    var k, u := SizeShapeOf(value, totalRamGb);
    SizeTextReads(k, u);
  }

  /** Validating an accepted size again accepts the same text. */
  lemma AcceptedStable(value: string, totalRamGb: real)
    requires Validate(value, totalRamGb).Accepted?
    requires Requested(value).Some? && Requested(value).value >= 0.0
    ensures Validate(Validate(value, totalRamGb).size, totalRamGb).Accepted?
    ensures Validate(Validate(value, totalRamGb).size, totalRamGb).size == Validate(value, totalRamGb).size
  {
    AcceptedSize(value, totalRamGb);
    var k, u := SizeShapeOf(value, totalRamGb);
    SizeTextReads(k, u);
    SizedOfText(k, u);
    var size := SizeText(k, u);
    assert Requested(size) == Some(Gb(Reading(u, k as real)));
    assert Validate(size, totalRamGb) == Sized(u, Gb(Reading(u, k as real)));
  }

  // ---------------------------------------------------------------------------
  // The number handed back: mixed units as written, megabytes as intended
  // ---------------------------------------------------------------------------

  /** "1.5G" reads as one and a half gigabytes. */
  lemma ReadHalfGigabyte()
    ensures Strip(Upper("1.5G")) == "1.5G"
    ensures Read("1.5G") == Some(Reading(Gigabytes, 1.5))
  {
    SizeCharsCanonical("1.5G");
    assert "1.5G" == "1.5" + [Letter(Gigabytes)];
    PointValue("1.5", 1.5);
    PointNoLetter("1.5");
    ReadNumeral("1.5", Gigabytes, 1.5);
  }

  /** A numeral of the form digit, point, digit holds neither size letter. */
  lemma PointNoLetter(n: string)
    requires |n| == 3 && IsDigit(n[0]) && n[1] == '.' && IsDigit(n[2])
    ensures 'G' !in n && 'M' !in n
  {
  }

  /**
   One and a half gigabytes are accepted as 1536 megabytes, and the number
   handed back is 1536: a count of megabytes.
   */
  lemma HalfGigabyteAsWritten(totalRamGb: real)
    requires totalRamGb >= 1.5
    ensures Validate("1.5G", totalRamGb) == Accepted(SizeText(1536, Megabytes), 1536)
  {
    ReadHalfGigabyte();
    assert Validate("1.5G", totalRamGb) == Sized(Gigabytes, 1.5);
    assert Trunc(1.5) == 1;
    assert Trunc(1.5 * 1024.0) == 1536;
  }

  /**
   The very text the validator made of "1.5G" is accepted again unchanged,
   but the number handed back is now 1: a count of whole gigabytes.
   */
  lemma SameSizeAsWritten(totalRamGb: real)
    requires totalRamGb >= 1.5
    ensures Validate(SizeText(1536, Megabytes), totalRamGb) == Accepted(SizeText(1536, Megabytes), 1)
  {
    SizeTextReads(1536, Megabytes);
    assert Gb(Reading(Megabytes, 1536.0)) == 1.5;
    assert Trunc(1.5) == 1;
    assert Trunc(1.5 * 1024.0) == 1536;
  }

  /** Lines 103-113 with every number handed back in megabytes; the texts are unchanged. */
  function SizedMb(u: Unit, g: real): (r: Validation)
    ensures r.Accepted?
  {
    Accepted(Sized(u, g).size, Trunc(g * 1024.0))
  }

  /** `Validate` with the number handed back always counting megabytes. */
  function ValidateMb(value: string, totalRamGb: real): (r: Validation)
    ensures r == NotGiven <==> value == []
  {
    if value == [] then NotGiven
    else
      match Read(Strip(Upper(value)))
      case None => Refused(BadFormat)
      case Some(reading) =>
        if Gb(reading) > totalRamGb then Refused(OverTotal) else SizedMb(reading.unit, Gb(reading))
  }

  /** The corrected validator accepts and refuses exactly as written, with the same texts. */
  lemma ValidateMbAgrees(value: string, totalRamGb: real)
    ensures !Validate(value, totalRamGb).Accepted? ==> ValidateMb(value, totalRamGb) == Validate(value, totalRamGb)
    ensures Validate(value, totalRamGb).Accepted? <==> ValidateMb(value, totalRamGb).Accepted?
    ensures Validate(value, totalRamGb).Accepted? ==>
      ValidateMb(value, totalRamGb).size == Validate(value, totalRamGb).size
  {
    if value != [] {
      match Read(Strip(Upper(value)))
      case None =>
      case Some(reading) =>
        var g := Gb(reading);
        if g <= totalRamGb {
          assert Validate(value, totalRamGb) == Sized(reading.unit, g);
          assert ValidateMb(value, totalRamGb) == SizedMb(reading.unit, g);
        }
    }
  }

  /** Each corrected text is a printed number whose size, in gigabytes, is the number handed back over 1024. */
  lemma SizedMbText(u: Unit, g: real) returns (k: int, v: Unit)
    ensures SizedMb(u, g).size == SizeText(k, v)
    ensures Gb(Reading(v, k as real)) == SizedMb(u, g).amount as real / 1024.0
  {
    k, v := SizedText(u, g);
    if v == Gigabytes {
      assert SizedMb(u, g).amount == k * 1024 by {
        assert g * 1024.0 == (k * 1024) as real;
        TruncWhole(k * 1024);
      }
    }
  }

  /**
   The corrected number is exactly the megabytes the accepted text asks for:
   the text asks for `x` gigabytes where `x` is the number over 1024.
   */
  lemma ValidateMbAmount(value: string, totalRamGb: real, x: real)
    requires ValidateMb(value, totalRamGb).Accepted?
    requires x == ValidateMb(value, totalRamGb).amount as real / 1024.0
    ensures Requested(ValidateMb(value, totalRamGb).size) == Some(x)
  {
    var reading := Read(Strip(Upper(value))).value;
    assert ValidateMb(value, totalRamGb) == SizedMb(reading.unit, Gb(reading));
    var k, v := SizedMbText(reading.unit, Gb(reading));
    RequestedSizeText(k, v, x);
  }

  /** Under the correction "1.5G" and the text made of it hand back the same number. */
  lemma HalfGigabyteCorrected(totalRamGb: real)
    requires totalRamGb >= 1.5
    ensures ValidateMb("1.5G", totalRamGb) == Accepted(SizeText(1536, Megabytes), 1536)
    ensures ValidateMb(SizeText(1536, Megabytes), totalRamGb) == Accepted(SizeText(1536, Megabytes), 1536)
  {
    assert Trunc(1.5 * 1024.0) == 1536;
    assert ValidateMb("1.5G", totalRamGb) == SizedMb(Gigabytes, 1.5) by {
      ReadHalfGigabyte();
    }
    assert Sized(Gigabytes, 1.5).size == SizeText(1536, Megabytes) by {
      assert Trunc(1.5) == 1;
    }
    assert ValidateMb(SizeText(1536, Megabytes), totalRamGb) == SizedMb(Megabytes, 1.5) by {
      SizeTextReads(1536, Megabytes);
      assert Gb(Reading(Megabytes, 1536.0)) == 1.5;
    }
    assert Sized(Megabytes, 1.5).size == SizeText(1536, Megabytes);
  }
}
