/**
 The default install directory offered for a server type: the type in
 lower case with the " (mods)" and " (otimizado)" qualifiers removed and
 blanks turned into underscores, between "./" and "_server".
 */
module ServerDir {
  import opened Text

  /** The middle part of the directory name. */
  function DirName(serverType: string): string
  {
    ReplaceAll(ReplaceAll(ReplaceAll(Lower(serverType), " (mods)", ""), " (otimizado)", ""), " ", "_")
  }

  /** The default directory `select_dir` returns. */
  function DefaultDir(serverType: string): (r: string)
    ensures StartsWith(r, "./") && EndsWith(r, "_server")
    ensures |r| == |DirName(serverType)| + 9 && r[2..|r| - 7] == DirName(serverType)
  {
    Framed("./", DirName(serverType), "_server");
    "./" + DirName(serverType) + "_server"
  }

  /** Text framed by a prefix and a suffix starts and ends with them and holds the middle. */
  lemma Framed(a: string, d: string, b: string)
    ensures StartsWith(a + d + b, a) && EndsWith(a + d + b, b)
    ensures (a + d + b)[|a|..|a + d + b| - |b|] == d
  {
    var r := a + d + b;
    assert r[..|a|] == a;
    assert r[|r| - |b|..] == b;
  }

  /** Replacing a piece whose first character never occurs changes nothing. */
  lemma {:induction false} ReplaceAbsent(s: string, p: string, q: string)
    requires p != [] && p[0] !in s
    ensures ReplaceAll(s, p, q) == s
  {
    if |s| > 0 {
      assert s[0] != p[0];
      ReplaceAbsent(s[1..], p, q);
      assert s == [s[0]] + s[1..];
    }
  }


  /** Text ahead of the first character of the piece passes through unchanged. */
  lemma {:induction false} ReplaceThrough(s: string, t: string, p: string, q: string)
    requires p != [] && p[0] !in s
    ensures ReplaceAll(s + t, p, q) == s + ReplaceAll(t, p, q)
  {
    if |s| > 0 {
      assert (s + t)[0] == s[0] != p[0];
      assert (s + t)[1..] == s[1..] + t;
      ReplaceThrough(s[1..], t, p, q);
      assert s + ReplaceAll(t, p, q) == [s[0]] + (s[1..] + ReplaceAll(t, p, q));
    } else {
      assert s + t == t;
    }
  }

  /** Text that does not start with the piece and never repeats its first character is kept. */
  lemma ReplaceMiss(t: string, p: string, q: string)
    requires p != [] && |t| > 0 && !StartsWith(t, p) && p[0] !in t[1..]
    ensures ReplaceAll(t, p, q) == t
  {
    ReplaceAbsent(t[1..], p, q);
    assert t == [t[0]] + t[1..];
  }

  /** Replacing a character by text without it leaves none of that character. */
  lemma {:induction false} ReplaceCharGone(s: string, c: char, q: string)
    requires c !in q
    ensures c !in ReplaceAll(s, [c], q)
  {
    if |s| > 0 {
      ReplaceCharGone(s[1..], c, q);
      if !StartsWith(s, [c]) {
        assert s[0] != c;
      }
    }
  }

  /** The directory name holds no blank and no upper-case ASCII letter. */
  lemma DirNameClean(serverType: string)
    ensures ' ' !in DirName(serverType)
    ensures forall i :: 0 <= i < |DirName(serverType)| ==> !('A' <= DirName(serverType)[i] <= 'Z')
  {
    var a := ReplaceAll(ReplaceAll(Lower(serverType), " (mods)", ""), " (otimizado)", "");
    ReplaceCharGone(a, ' ', "_");
    assert " " == [' '];
    var d := DirName(serverType);
    forall i | 0 <= i < |d| ensures !('A' <= d[i] <= 'Z') {
      assert d[i] in d;
    }
  }

  /** Lower-casing neither creates nor removes a character that is not a letter. */
  lemma LowerKeeps(n: string, c: char)
    requires c !in n && !('A' <= c <= 'Z') && !('a' <= c <= 'z')
    ensures c !in Lower(n)
  {
    forall i | 0 <= i < |n| ensures Lower(n)[i] != c {
      assert n[i] != c;
    }
  }

  /** A type name without blanks becomes its lower-case form. */
  lemma DirNamePlain(n: string)
    requires ' ' !in n
    ensures DirName(n) == Lower(n)
  {
    LowerKeeps(n, ' ');
    var l := Lower(n);
    ReplaceAbsent(l, " (mods)", "");
    ReplaceAbsent(l, " (otimizado)", "");
    ReplaceAbsent(l, " ", "_");
  }

  /** The " (Mods)" qualifier is dropped, whatever the case of its letters. */
  lemma DirNameMods(n: string)
    requires ' ' !in n
    ensures DirName(n + " (Mods)") == Lower(n)
  {
    LowerKeeps(n, ' ');
    var l := Lower(n);
    var m := " (mods)";
    LowerAppend(n, " (Mods)");
    LowerEq(" (Mods)", m);
    ReplaceThrough(l, m, m, "");
    assert m[|m|..] == [];
    assert l + "" == l;
    ReplaceAbsent(l, " (otimizado)", "");
    ReplaceAbsent(l, " ", "_");
  }

  /** The lower-case forms of the two qualifiers. */
  lemma QualifiersLower()
    ensures Lower(" (Mods)") == " (mods)"
    ensures Lower(" (Otimizado)") == " (otimizado)"
  {
    LowerEq(" (Mods)", " (mods)");
    LowerEq(" (Otimizado)", " (otimizado)");
  }

  /** The mods qualifier is not the start of the optimised one. */
  lemma OptimisedKeptByMods(l: string)
    requires ' ' !in l
    ensures ReplaceAll(l + " (otimizado)", " (mods)", "") == l + " (otimizado)"
  {
    ReplaceThrough(l, " (otimizado)", " (mods)", "");
    OptimisedMissesMods();
  }

  /** The optimised qualifier alone holds no mods qualifier. */
  lemma OptimisedMissesMods()
    ensures ReplaceAll(" (otimizado)", " (mods)", "") == " (otimizado)"
  {
    var o := " (otimizado)";
    assert o[..7] != " (mods)" by { assert o[2] != " (mods)"[2]; }
    ReplaceMiss(o, " (mods)", "");
  }

  /** A piece at the very end, after text without its first character, is removed. */
  lemma DropTail(l: string, p: string)
    requires p != [] && p[0] !in l
    ensures ReplaceAll(l + p, p, "") == l
  {
    ReplaceThrough(l, p, p, "");
    assert p[|p|..] == [];
    assert l + "" == l;
  }

  /** The " (Otimizado)" qualifier is dropped, whatever the case of its letters. */
  lemma DirNameOptimised(n: string)
    requires ' ' !in n
    ensures DirName(n + " (Otimizado)") == Lower(n)
  {
    LowerKeeps(n, ' ');
    var l := Lower(n);
    LowerAppend(n, " (Otimizado)");
    QualifiersLower();
    OptimisedKeptByMods(l);
    DropTail(l, " (otimizado)");
    ReplaceAbsent(l, " ", "_");
  }

  /** The directory offered for a one-word type is that word in lower case. */
  lemma DefaultDirPlain(n: string, l: string)
    requires ' ' !in n && Lower(n) == l
    ensures DefaultDir(n) == "./" + l + "_server"
  {
    DirNamePlain(n);
  }

  /** The directory offered for a modded type drops the qualifier. */
  lemma DefaultDirMods(n: string, l: string)
    requires ' ' !in n && Lower(n) == l
    ensures DefaultDir(n + " (Mods)") == "./" + l + "_server"
  {
    DirNameMods(n);
  }

  /** The directory offered for an optimised type drops the qualifier. */
  lemma DefaultDirOptimised(n: string, l: string)
    requires ' ' !in n && Lower(n) == l
    ensures DefaultDir(n + " (Otimizado)") == "./" + l + "_server"
  {
    DirNameOptimised(n);
  }

  /** The directory offered for the vanilla server. */
  lemma VanillaDir(t: string)
    requires t == "Vanilla"
    ensures DefaultDir(t) == "./vanilla_server"
  {
    LowerEq(t, "vanilla");
    DefaultDirPlain(t, "vanilla");
  }

  /** The directory offered for the optimised Paper server. */
  lemma PaperDir(n: string, t: string)
    requires n == "Paper" && t == "Paper (Otimizado)"
    ensures DefaultDir(t) == "./paper_server"
  {
    LowerEq(n, "paper");
    assert t == n + " (Otimizado)";
    DefaultDirOptimised(n, "paper");
  }

  /** The directory offered for the NeoForge server. */
  lemma NeoForgeDir(n: string, t: string)
    requires n == "NeoForge" && t == "NeoForge (Mods)"
    ensures DefaultDir(t) == "./neoforge_server"
  {
    LowerEq(n, "neoforge");
    assert t == n + " (Mods)";
    DefaultDirMods(n, "neoforge");
  }
}
