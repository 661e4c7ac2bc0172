/**
 The version resolver: which of the four supported Java releases a
 `java -version` banner names, and the fixed table of recommended flags for
 each release.
 */
module JavaVersion {
  import opened Optional
  import opened Text
  import opened Numerals

  /** The closed set of Java releases the flag editor knows. */
  datatype Bucket = Java8 | Java17 | Java21 | Java25

  /** The version text the program uses for a bucket (`"1.8"`, `"17"`, ...). */
  function Name(b: Bucket): string
  {
    match b
    case Java8 => "1.8"
    case Java17 => "17"
    case Java21 => "21"
    case Java25 => "25"
  }

  /** The number `float()` reads from a bucket's name. */
  function Value(b: Bucket): real
  {
    match b
    case Java8 => 1.8
    case Java17 => 17.0
    case Java21 => 21.0
    case Java25 => 25.0
  }

  /** `raw[14:]`: the banner after the 14 characters of `java version "`. */
  function VersionTail(raw: string): string
  {
    if |raw| <= 14 then [] else raw[14..]
  }

  /**
   `format_java_version_string`: the bucket whose name the stripped tail of
   the banner starts with, or `None` (the program's `False`). The four names
   are prefix-free, so the order of the tests never matters.
   */
  function FormatJavaVersionString(raw: string): (r: Option<Bucket>)
    ensures forall b :: r == Some(b) <==> StartsWith(Strip(VersionTail(raw)), Name(b))
  {
    var t := Strip(VersionTail(raw));
    PrefixesExclusive(t);
    if StartsWith(t, "1.8") then Some(Java8)
    else if StartsWith(t, "17") then Some(Java17)
    else if StartsWith(t, "21") then Some(Java21)
    else if StartsWith(t, "25") then Some(Java25)
    else None
  }

  /** No text starts with two different bucket names. */
  lemma PrefixesExclusive(t: string)
    ensures forall b1, b2 :: StartsWith(t, Name(b1)) && StartsWith(t, Name(b2)) ==> b1 == b2
  {
    forall b1, b2 | StartsWith(t, Name(b1)) && StartsWith(t, Name(b2))
      ensures b1 == b2
    {
      var n1, n2 := Name(b1), Name(b2);
      assert t[0] == n1[0] && t[1] == n1[1] by { assert t[..|n1|] == n1; }
      assert t[0] == n2[0] && t[1] == n2[1] by { assert t[..|n2|] == n2; }
    }
  }

  /** Two banners with the same stripped tail resolve alike, whatever their first 14 characters. */
  lemma FormatDependsOnlyOnTail(raw1: string, raw2: string)
    requires Strip(VersionTail(raw1)) == Strip(VersionTail(raw2))
    ensures FormatJavaVersionString(raw1) == FormatJavaVersionString(raw2)
  {
  }

  /** The 14-character lead of an Oracle banner, `java version "`. */
  const OracleLead := "java version \""

  /**
   An Oracle-style banner resolves to the release whose name opens the quoted
   version, whatever follows it.
   */
  lemma OracleBanner(b: Bucket, rest: string)
    ensures FormatJavaVersionString(OracleLead + Name(b) + rest) == Some(b)
  {
    var lead := OracleLead;
    assert |lead| == 14;
    var tail := Name(b) + rest;
    assert OracleLead + Name(b) + rest == lead + tail;
    DropAppend(lead, tail);
    assert VersionTail(lead + tail) == tail;
    assert StartsWith(tail, Name(b));
    StripKeepsLead(tail, Name(b));
  }

  /**
   An OpenJDK banner (`openjdk version "21.0.1" ...`) has a 17-character
   lead, so the fixed offset lands on its `n` and no release matches.
   */
  lemma OpenJdkBanner(rest: string)
    ensures FormatJavaVersionString(OpenJdkLead + rest) == None
  {
    var lead := OpenJdkLead;
    assert lead[14] == 'n';
    assert (lead + rest)[14] == lead[14];
    UnrecognisedAt14(lead + rest);
  }

  const OpenJdkLead := "openjdk version \""

  /** A banner whose fifteenth character is neither whitespace nor `1`/`2` names no release. */
  lemma UnrecognisedAt14(raw: string)
    requires |raw| > 14 && !IsSpace(raw[14]) && raw[14] != '1' && raw[14] != '2'
    ensures FormatJavaVersionString(raw) == None
  {
    var tail := VersionTail(raw);
    var t := Strip(tail);
    StripKeepsLead(tail, [raw[14]]);
    forall b ensures !StartsWith(t, Name(b)) {
      assert t[0] == raw[14];
      assert Name(b)[0] == '1' || Name(b)[0] == '2';
    }
  }

  /** Text starting with a whitespace-free piece keeps it through `strip`. */
  lemma StripKeepsLead(t: string, p: string)
    requires p != [] && StartsWith(t, p) && NoSpace(p)
    ensures StartsWith(Strip(t), p)
  {
    assert t[0] == p[0] && t[|p| - 1] == p[|p| - 1];
    assert LStrip(t) == t;
    var r := RStrip(t);
    assert |r| >= |p|;
    assert r[..|p|] == t[..|p|];
  }

  lemma DropAppend(a: string, b: string)
    ensures (a + b)[|a|..] == b
  {
  }

  const UseG1GC := "-XX:+UseG1GC"
  const UseZGC := "-XX:+UseZGC"
  const ZGenerational := "-XX:+ZGenerational"
  const UseShenandoahGC := "-XX:+UseShenandoahGC"
  const UseConcMarkSweepGC := "-XX:+UseConcMarkSweepGC"
  const AlwaysPreTouch := "-XX:+AlwaysPreTouch"
  const UseCompactObjectHeaders := "-XX:+UseCompactObjectHeaders"
  const G1HeapRegionSize := "-XX:G1HeapRegionSize=32M"
  const ParallelRefProcEnabled := "-XX:+ParallelRefProcEnabled"
  const DisableExplicitGC := "-XX:+DisableExplicitGC"
  const MaxGCPauseMillis := "-XX:MaxGCPauseMillis=50"
  const PerfDisableSharedMem := "-XX:+PerfDisableSharedMem"
  const G1NewSizePercent := "-XX:G1NewSizePercent=30"
  const DontCompileHugeMethods := "-XX:-DontCompileHugeMethods"

  /** The garbage-collector master list, in the program's order. */
  const GarbageCollectors: seq<string> :=
    [UseG1GC, UseZGC, ZGenerational, UseShenandoahGC, UseConcMarkSweepGC]

  /** The memory master list. */
  const MemoryManagers: seq<string> := [AlwaysPreTouch, UseCompactObjectHeaders, G1HeapRegionSize]

  /** The performance list, offered unchanged for every release. */
  const PerformanceOptions: seq<string> := [
    ParallelRefProcEnabled,
    DisableExplicitGC,
    MaxGCPauseMillis,
    PerfDisableSharedMem,
    G1NewSizePercent,
    DontCompileHugeMethods
  ]

  /** The three flag lists written into a fresh flag file. */
  datatype FlagLists = FlagLists(gc: seq<string>, memory: seq<string>, performance: seq<string>)

  /** `seq[i]` for each listed index, in order. */
  function Pick(s: seq<string>, ix: seq<nat>): (r: seq<string>)
    requires forall k :: 0 <= k < |ix| ==> ix[k] < |s|
    ensures |r| == |ix|
    ensures forall k :: 0 <= k < |ix| ==> r[k] == s[ix[k]]
  {
    if |ix| == 0 then [] else [s[ix[0]]] + Pick(s, ix[1..])
  }

  /** The master-list positions each release recommends. */
  function GcIndices(b: Bucket): seq<nat>
  {
    match b
    case Java8 => [0, 4]
    case Java17 => [0, 1, 3]
    case Java21 => [0, 1, 2, 3]
    case Java25 => [0, 1, 2, 3]
  }

  function MemoryIndices(b: Bucket): seq<nat>
  {
    if b == Java25 then [0, 1, 2] else [0, 2]
  }

  /** The per-release lists, written as the program builds them. */
  function FlagTable(b: Bucket): (r: FlagLists)
    ensures r.performance == PerformanceOptions
    ensures |r.gc| >= 2 && r.gc[0] == UseG1GC
    ensures UseConcMarkSweepGC in r.gc <==> b == Java8
    ensures UseCompactObjectHeaders in r.memory <==> b == Java25
    ensures forall f :: f in r.gc ==> f in GarbageCollectors
    ensures forall f :: f in r.memory ==> f in MemoryManagers
  {
    var gc := GarbageCollectors;
    var mem := MemoryManagers;
    match b
    case Java8 => FlagLists([gc[0], gc[4]], [mem[0], mem[2]], PerformanceOptions)
    case Java17 => FlagLists([gc[0], gc[1], gc[3]], [mem[0], mem[2]], PerformanceOptions)
    case Java21 => FlagLists(gc[..4], [mem[0], mem[2]], PerformanceOptions)
    case Java25 => FlagLists(gc[..4], mem, PerformanceOptions)
  }

  /** The table agrees with the index description of each release. */
  lemma FlagTableByIndex(b: Bucket)
    ensures FlagTable(b).gc == Pick(GarbageCollectors, GcIndices(b))
    ensures FlagTable(b).memory == Pick(MemoryManagers, MemoryIndices(b))
  {
  }

  /** The bucket whose number `v` is, if any. */
  function BucketOfValue(v: real): (r: Option<Bucket>)
    ensures forall b :: r == Some(b) <==> v == Value(b)
  {
    if v == 1.8 then Some(Java8)
    else if v == 17.0 then Some(Java17)
    else if v == 21.0 then Some(Java21)
    else if v == 25.0 then Some(Java25)
    else None
  }

  /** Different releases recommend different lists. */
  lemma FlagTableInjective(b1: Bucket, b2: Bucket)
    requires FlagTable(b1) == FlagTable(b2)
    ensures b1 == b2
  {
  }

  /**
   `determine_jvm_args_list`: the version text is read with `float()` and
   compared with 1.8, 17, 21 and 25. `None` stands for both failures the
   program has: `float()` raising, and the unmatched `case _` leaving the
   result unbound so that the `return` raises.
   */
  function DetermineJvmArgsList(version: string): (r: Option<FlagLists>)
    ensures forall b :: r == Some(FlagTable(b)) <==> ParseDecimal(version) == Some(Value(b))
    ensures r.None? <==> forall b :: ParseDecimal(version) != Some(Value(b))
  {
    var p := ParseDecimal(version);
    if p.None? then None
    else match BucketOfValue(p.value)
      case None => None
      case Some(b) =>
        forall b2 | FlagTable(b2) == FlagTable(b) ensures b2 == b {
          FlagTableInjective(b2, b);
        }
        Some(FlagTable(b))
  }

  /** `float()` reads each bucket's name as its value. */
  lemma NameValue(b: Bucket)
    ensures ParseDecimal(Name(b)) == Some(Value(b))
  {
    match b
    case Java8 => NameValue8();
    case Java17 => WholeNameValue("17", 17);
    case Java21 => WholeNameValue("21", 21);
    case Java25 => WholeNameValue("25", 25);
  }

  lemma NameValue8()
    ensures ParseDecimal("1.8") == Some(1.8)
  {
    PointValue("1.8", 1.8);
  }

  /** A two-digit name without a point reads as its number. */
  lemma WholeNameValue(n: string, v: nat)
    requires |n| == 2 && IsDigit(n[0]) && IsDigit(n[1])
    requires v == 10 * DigitValue(n[0]) + DigitValue(n[1])
    ensures ParseDecimal(n) == Some(v as real)
  {
    assert NoSpace(n);
    StripNoSpace(n);
    assert Unsigned(n) == n;
    assert IndexOf(n, '.') == 2;
    assert n[..2] == n;
    assert n[..1] == [n[0]];
    assert [n[0]][..0] == "";
    assert DigitsValue([n[0]]) == DigitValue(n[0]);
    assert DigitsValue(n) == 10 * DigitsValue(n[..1]) + DigitValue(n[1]);
  }

  /** Every version the program can hold (a bucket name) has a flag table. */
  lemma DetermineForBucket(b: Bucket)
    ensures DetermineJvmArgsList(Name(b)) == Some(FlagTable(b))
  {
    NameValue(b);
  }
}
