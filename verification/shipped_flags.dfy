/**
 The fourteen flags the program ships are all plain: each starts with `-`,
 holds no whitespace and does not spell "others". So the restore round trip
 holds for every release's own flag table.
 */
module ShippedFlags {
  import opened Text
  import opened JavaVersion
  import opened JvmArgsFile
  import opened JvmArgsRestore

  /** A dashed flag of visible characters that lacks one letter of the marker, in both cases, is plain. */
  lemma PlainByLetter(f: string, m: string, k: nat)
    requires m == "others" && k < |m|
    requires f != [] && f[0] == '-'
    requires forall i :: 0 <= i < |f| ==> '!' <= f[i] <= '~' && f[i] != m[k] && f[i] != UpperChar(m[k])
    ensures PlainFlag(f)
  {
    VisibleNoSpace(f);
    assert m[k] !in f && UpperChar(m[k]) !in f;
    NotContainsLower(f, m, k);
  }

  /**
   The marker does not occur in the lowered text when the letter at `k` of
   it is missing, in both cases, from all but a tail too short to hold the
   rest of the marker from that letter on.
   */
  lemma NotContainsLowerTail(p: string, q: string, m: string, k: nat)
    requires k < |m| && |q| + k < |m|
    requires m[k] !in p && UpperChar(m[k]) !in p
    ensures !Contains(Lower(p + q), m)
  {
    var s := p + q;
    var t := Lower(s);
    forall i | 0 <= i <= |t|
      ensures !StartsWith(t[i..], m)
    {
      if i + |m| <= |t| {
        var x := s[i + k];
        assert x == p[i + k];
        assert x in p;
        assert t[i..][k] == LowerChar(x);
      }
    }
  }

  /** The same for a dashed flag cut into such a head and tail. */
  lemma PlainByTail(p: string, q: string, m: string, k: nat)
    requires m == "others" && k < |m| && |q| + k < |m|
    requires p != [] && p[0] == '-'
    requires forall i :: 0 <= i < |p| ==> '!' <= p[i] <= '~' && p[i] != m[k] && p[i] != UpperChar(m[k])
    requires forall i :: 0 <= i < |q| ==> '!' <= q[i] <= '~'
    ensures PlainFlag(p + q)
  {
    VisibleNoSpace(p);
    VisibleNoSpace(q);
    assert m[k] !in p && UpperChar(m[k]) !in p;
    NotContainsLowerTail(p, q, m, k);
    assert forall i :: 0 <= i < |p + q| ==> (p + q)[i] == if i < |p| then p[i] else q[i - |p|];
  }

  /** The flags that lack a letter of "others" in both cases. */
  lemma UseG1GCPlain()
    ensures PlainFlag(UseG1GC)
  {
    PlainByLetter(UseG1GC, "others", 0);
  }

  lemma UseZGCPlain()
    ensures PlainFlag(UseZGC)
  {
    PlainByLetter(UseZGC, "others", 0);
  }

  lemma ZGenerationalPlain()
    ensures PlainFlag(ZGenerational)
  {
    PlainByLetter(ZGenerational, "others", 2);
  }

  lemma UseShenandoahGCPlain()
    ensures PlainFlag(UseShenandoahGC)
  {
    PlainByLetter(UseShenandoahGC, "others", 1);
  }

  lemma UseConcMarkSweepGCPlain()
    ensures PlainFlag(UseConcMarkSweepGC)
  {
    PlainByLetter(UseConcMarkSweepGC, "others", 2);
  }

  lemma G1HeapRegionSizePlain()
    ensures PlainFlag(G1HeapRegionSize)
  {
    PlainByLetter(G1HeapRegionSize, "others", 1);
  }

  lemma ParallelRefProcEnabledPlain()
    ensures PlainFlag(ParallelRefProcEnabled)
  {
    PlainByLetter(ParallelRefProcEnabled, "others", 2);
  }

  lemma DisableExplicitGCPlain()
    ensures PlainFlag(DisableExplicitGC)
  {
    PlainByLetter(DisableExplicitGC, "others", 0);
  }

  lemma MaxGCPauseMillisPlain()
    ensures PlainFlag(MaxGCPauseMillis)
  {
    PlainByLetter(MaxGCPauseMillis, "others", 0);
  }

  lemma PerfDisableSharedMemPlain()
    ensures PlainFlag(PerfDisableSharedMem)
  {
    PlainByLetter(PerfDisableSharedMem, "others", 0);
  }

  lemma G1NewSizePercentPlain()
    ensures PlainFlag(G1NewSizePercent)
  {
    PlainByLetter(G1NewSizePercent, "others", 0);
  }

  lemma DontCompileHugeMethodsPlain()
    ensures PlainFlag(DontCompileHugeMethods)
  {
    PlainByLetter(DontCompileHugeMethods, "others", 4);
  }

  /** `-XX:+AlwaysPreTouch`: its only `o` is too close to the end. */
  lemma AlwaysPreTouchPlain()
    ensures PlainFlag(AlwaysPreTouch)
  {
    PlainByTail("-XX:+AlwaysPreT", "ouch", "others", 0);
    assert "-XX:+AlwaysPreT" + "ouch" == AlwaysPreTouch;
  }

  /** A dashed flag of visible characters in which no `o` of either case is followed by a `t` of either case is plain. */
  lemma PlainByPair(f: string)
    requires f != [] && f[0] == '-'
    requires forall i :: 0 <= i < |f| ==>
      '!' <= f[i] <= '~' && (i + 1 < |f| && (f[i] == 'o' || f[i] == 'O') ==> f[i + 1] != 't' && f[i + 1] != 'T')
    ensures PlainFlag(f)
  {
    VisibleNoSpace(f);
    var t := Lower(f);
    forall i | 0 <= i < |t| - 1
      ensures !(t[i] == 'o' && t[i + 1] == 't')
    {
      if t[i] == 'o' {
        assert f[i] == 'o' || f[i] == 'O';
      }
    }
    NotContainsPair(t, "others");
  }

  /** `-XX:+UseCompactObjectHeaders`: its `o`s are followed by `m` and `b`, never by `t`. */
  lemma CompactHeadersPlain()
    ensures PlainFlag(UseCompactObjectHeaders)
  {
    PlainByPair(UseCompactObjectHeaders);
  }

  /** The garbage collectors are plain. */
  lemma GarbageCollectorsPlain()
    ensures PlainFlags(GarbageCollectors)
  {
    UseG1GCPlain();
    UseZGCPlain();
    ZGenerationalPlain();
    UseShenandoahGCPlain();
    UseConcMarkSweepGCPlain();
  }

  /** The memory flags are plain. */
  lemma MemoryManagersPlain()
    ensures PlainFlags(MemoryManagers)
  {
    AlwaysPreTouchPlain();
    CompactHeadersPlain();
    G1HeapRegionSizePlain();
  }

  /** The performance flags are plain. */
  lemma PerformanceOptionsPlain()
    ensures PlainFlags(PerformanceOptions)
  {
    ParallelRefProcEnabledPlain();
    DisableExplicitGCPlain();
    MaxGCPauseMillisPlain();
    PerfDisableSharedMemPlain();
    G1NewSizePercentPlain();
    DontCompileHugeMethodsPlain();
  }

  /** Every release's flag table is plain. */
  lemma FlagTablePlain(b: Bucket)
    ensures PlainLists(FlagTable(b))
  {
    GarbageCollectorsPlain();
    MemoryManagersPlain();
    PerformanceOptionsPlain();
  }

  /**
   Writing a fresh file for a release and reading it with the editor gives
   back that release's three lists, all inactive, with no Others.
   */
  lemma ParseRestoredTable(b: Bucket)
    ensures var l := FlagTable(b);
      ParseFlagFile(ReadLines(RestoreText(Name(b), l))) == FlagSections(l.gc, l.memory, l.performance, [], [])
  {
    FlagTablePlain(b);
    BucketVersionText(b);
    ParseRestored(Name(b), FlagTable(b));
  }
}
