/** Optional values, used wherever the program returns `False`/`None` or raises. */
module Optional {

  datatype Option<+T> = None | Some(value: T)
}

/**
 The handful of Python string operations the installer relies on, over
 `string` (a `seq<char>`): `strip`, `lower`/`upper` (ASCII letters only),
 `startswith`/`endswith`, `in`, `replace`, `lstrip("#")`, and reading a text
 file line by line.
 */
module Text {

  /** Characters Python's `str.strip()` and `float()` treat as whitespace. */
  predicate IsSpace(c: char)
  {
    || ('\t' <= c <= '\r')
    || ('\U{1c}' <= c <= '\U{1f}')
    || c == ' '
    || c == '\U{85}'
    || c == '\U{a0}'
    || c == '\U{1680}'
    || ('\U{2000}' <= c <= '\U{200a}')
    || c == '\U{2028}'
    || c == '\U{2029}'
    || c == '\U{202f}'
    || c == '\U{205f}'
    || c == '\U{3000}'
  }

  predicate NoSpace(s: string)
  {
    forall i :: 0 <= i < |s| ==> !IsSpace(s[i])
  }

  /** Visible ASCII characters are never whitespace. */
  lemma VisibleNoSpace(s: string)
    requires forall i :: 0 <= i < |s| ==> '!' <= s[i] <= '~'
    ensures NoSpace(s)
  {
  }

  /** `s.lstrip()`: drop leading whitespace. */
  function LStrip(s: string): (r: string)
    ensures |r| <= |s| && r == s[|s| - |r|..]
    ensures r == [] || !IsSpace(r[0])
    ensures forall i :: 0 <= i < |s| - |r| ==> IsSpace(s[i])
  {
    if |s| > 0 && IsSpace(s[0]) then LStrip(s[1..]) else s
  }

  /** `s.rstrip()`: drop trailing whitespace. */
  function RStrip(s: string): (r: string)
    ensures |r| <= |s| && r == s[..|r|]
    ensures r == [] || !IsSpace(r[|r| - 1])
    ensures forall i :: |r| <= i < |s| ==> IsSpace(s[i])
  {
    if |s| > 0 && IsSpace(s[|s| - 1]) then RStrip(s[..|s| - 1]) else s
  }

  /** `s.strip()`. */
  function Strip(s: string): (r: string)
    ensures r == [] || (!IsSpace(r[0]) && !IsSpace(r[|r| - 1]))
  {
    RStrip(LStrip(s))
  }

  /** Whitespace-free text is its own strip. */
  lemma StripNoSpace(s: string)
    requires NoSpace(s)
    ensures Strip(s) == s
  {
  }

  /** Text that neither starts nor ends with whitespace is its own strip. */
  lemma StripTrimmed(s: string)
    requires s == [] || (!IsSpace(s[0]) && !IsSpace(s[|s| - 1]))
    ensures Strip(s) == s
  {
  }

  /** A trailing whitespace character never survives `strip`. */
  lemma StripTrailingSpace(s: string, c: char)
    requires IsSpace(c)
    ensures Strip(s + [c]) == Strip(s)
  {
    LStripAppendSpace(s, c);
    if LStrip(s) != [] {
      assert (LStrip(s) + [c])[..|LStrip(s) + [c]| - 1] == LStrip(s);
    }
  }

  lemma StripNewline(s: string)
    ensures Strip(s + "\n") == Strip(s)
  {
    StripTrailingSpace(s, '\n');
  }

  /** A trimmed text followed by a line end strips back to itself. */
  lemma StripLine(t: string)
    requires t != [] && !IsSpace(t[0]) && !IsSpace(t[|t| - 1])
    ensures Strip(t + "\n") == t
  {
    StripNewline(t);
    StripTrimmed(t);
  }

  /** The same with one blank before the line end. */
  lemma StripLineBlank(t: string)
    requires t != [] && !IsSpace(t[0]) && !IsSpace(t[|t| - 1])
    ensures Strip(t + " \n") == t
  {
    assert t + " \n" == (t + [' ']) + "\n";
    StripNewline(t + [' ']);
    StripTrailingSpace(t, ' ');
    StripTrimmed(t);
  }

  lemma LStripAppendSpace(s: string, c: char)
    requires IsSpace(c)
    ensures LStrip(s + [c]) == if LStrip(s) == [] then [] else LStrip(s) + [c]
  {
    if |s| > 0 && IsSpace(s[0]) {
      assert (s + [c])[1..] == s[1..] + [c];
      LStripAppendSpace(s[1..], c);
    } else if |s| == 0 {
      assert LStrip([c]) == LStrip([c][1..]);
    }
  }

  /** `strip` keeps a contiguous piece of its argument. */
  lemma StripSlice(s: string) returns (a: nat)
    ensures a + |Strip(s)| <= |s| && Strip(s) == s[a..a + |Strip(s)|]
  {
    var l := LStrip(s);
    a := |s| - |l|;
    assert Strip(s) == l[..|Strip(s)|];
    assert l[..|Strip(s)|] == s[a..a + |Strip(s)|];
  }

  /** The characters of a stripped text come from the text. */
  lemma StripChars(s: string)
    ensures forall c :: c in Strip(s) ==> c in s
  {
    var t := Strip(s);
    var a := StripSlice(s);
    assert forall i :: 0 <= i < |t| ==> t[i] == s[a + i];
  }

  function LowerChar(c: char): char
  {
    if 'A' <= c <= 'Z' then (c as int + 32) as char else c
  }

  function UpperChar(c: char): char
  {
    if 'a' <= c <= 'z' then (c as int - 32) as char else c
  }

  /** `s.lower()` on ASCII letters. */
  function Lower(s: string): (r: string)
    ensures |r| == |s|
    ensures forall i :: 0 <= i < |s| ==> r[i] == LowerChar(s[i])
  {
    seq(|s|, i requires 0 <= i < |s| => LowerChar(s[i]))
  }

  /** `s.upper()` on ASCII letters. */
  function Upper(s: string): (r: string)
    ensures |r| == |s|
    ensures forall i :: 0 <= i < |s| ==> r[i] == UpperChar(s[i])
  {
    seq(|s|, i requires 0 <= i < |s| => UpperChar(s[i]))
  }

  /** `s.startswith(p)`. */
  predicate StartsWith(s: string, p: string)
  {
    |p| <= |s| && s[..|p|] == p
  }

  /** `s.endswith(p)`. */
  predicate EndsWith(s: string, p: string)
  {
    |p| <= |s| && s[|s| - |p|..] == p
  }

  /** Anything followed by a line end ends with one. */
  lemma EndsWithBreak(s: string)
    ensures EndsWith(s + "\n", "\n")
  {
    assert (s + "\n")[|s|..] == "\n";
  }

  /** Lowering distributes over concatenation. */
  lemma LowerAppend(a: string, b: string)
    ensures Lower(a + b) == Lower(a) + Lower(b)
  {
    assert forall i :: 0 <= i < |a + b| ==> Lower(a + b)[i] == (Lower(a) + Lower(b))[i] by {
      forall i | 0 <= i < |a + b| ensures Lower(a + b)[i] == (Lower(a) + Lower(b))[i] {
        if i >= |a| {
          assert (a + b)[i] == b[i - |a|];
        }
      }
    }
  }

  /** Lowering read character by character; used to evaluate it on literals. */
  lemma LowerEq(s: string, t: string)
    requires |s| == |t| && forall i :: 0 <= i < |s| ==> LowerChar(s[i]) == t[i]
    ensures Lower(s) == t
  {
  }

  /** The characters that lower to `y`: `y` itself and its upper-case form. */
  lemma LowerCharInverse(x: char, y: char)
    requires LowerChar(x) == y
    ensures x == y || x == UpperChar(y)
  {
  }

  /** `p in s`: `p` occurs in `s` as a contiguous piece, at some position `i`. */
  predicate Contains(s: string, p: string)
  {
    exists i :: 0 <= i <= |s| && StartsWith(s[i..], p)
  }

  /** A piece containing a character forces that character into the whole. */
  lemma ContainsChar(s: string, p: string, k: nat)
    requires Contains(s, p) && k < |p|
    ensures p[k] in s
  {
    var i :| 0 <= i <= |s| && StartsWith(s[i..], p);
    assert s[i + k] == p[k];
  }

  /** An occurrence in a suffix is an occurrence in the whole. */
  lemma ContainsSuffix(s: string, n: nat, p: string)
    requires n <= |s| && Contains(s[n..], p)
    ensures Contains(s, p)
  {
    var i :| 0 <= i <= |s[n..]| && StartsWith(s[n..][i..], p);
    assert s[n..][i..] == s[n + i..];
  }

  /** Dropping a character `p` cannot start with does not lose an occurrence. */
  lemma ContainsPrefixChar(c: char, s: string, p: string)
    requires p != [] && p[0] != c
    ensures Contains([c] + s, p) <==> Contains(s, p)
  {
    var t := [c] + s;
    if Contains(t, p) {
      var i :| 0 <= i <= |t| && StartsWith(t[i..], p);
      assert t[i..][..|p|][0] == p[0];
      assert t[i] != c;
      assert t[i..] == s[i - 1..];
    }
    if Contains(s, p) {
      var i :| 0 <= i <= |s| && StartsWith(s[i..], p);
      assert t[i + 1..] == s[i..];
    }
  }

  /** An occurrence exhibited at position `i`. */
  lemma ContainsWitness(s: string, p: string, i: nat)
    requires i <= |s| && StartsWith(s[i..], p)
    ensures Contains(s, p)
  {
  }

  /**
   `p` does not occur in the lowered text when one of its characters occurs
   in neither case; used to evaluate `in` on literals.
   */
  lemma NotContainsLower(s: string, p: string, k: nat)
    requires k < |p| && p[k] !in s && UpperChar(p[k]) !in s
    ensures !Contains(Lower(s), p)
  {
    var t := Lower(s);
    forall i | 0 <= i <= |t|
      ensures !StartsWith(t[i..], p)
    {
      if i + |p| <= |t| {
        var x := s[i + k];
        assert x in s;
        assert t[i..][k] == LowerChar(x);
      }
    }
  }

  /** `p` does not occur when its first two characters never stand side by side. */
  lemma NotContainsPair(s: string, p: string)
    requires |p| >= 2
    requires forall i :: 0 <= i < |s| - 1 ==> !(s[i] == p[0] && s[i + 1] == p[1])
    ensures !Contains(s, p)
  {
    forall i | 0 <= i <= |s|
      ensures !StartsWith(s[i..], p)
    {
      if i + |p| <= |s| {
        assert s[i..][0] == s[i] && s[i..][1] == s[i + 1];
      }
    }
  }

  /** `s.replace(c, "")` for one character. */
  function RemoveChar(s: string, c: char): (r: string)
    ensures c !in r
    ensures |r| <= |s|
    ensures forall x :: x in r <==> x in s && x != c
  {
    if |s| == 0 then []
    else if s[0] == c then RemoveChar(s[1..], c)
    else [s[0]] + RemoveChar(s[1..], c)
  }

  /** Removing a character that does not occur changes nothing. */
  lemma RemoveAbsentChar(s: string, c: char)
    requires c !in s
    ensures RemoveChar(s, c) == s
  {
    if |s| > 0 {
      assert s == [s[0]] + s[1..];
      RemoveAbsentChar(s[1..], c);
    }
  }

  lemma RemoveCharAppend(a: string, b: string, c: char)
    ensures RemoveChar(a + b, c) == RemoveChar(a, c) + RemoveChar(b, c)
  {
    if |a| > 0 {
      assert (a + b)[1..] == a[1..] + b;
      RemoveCharAppend(a[1..], b, c);
    } else {
      assert a + b == b;
    }
  }

  /** Removing `c` keeps the first and last characters when they are not `c`. */
  lemma RemoveCharKeepsEnds(s: string, c: char)
    requires s != [] && s[0] != c && s[|s| - 1] != c
    ensures RemoveChar(s, c) != []
    ensures RemoveChar(s, c)[0] == s[0]
    ensures RemoveChar(s, c)[|RemoveChar(s, c)| - 1] == s[|s| - 1]
  {
    assert s == s[..|s| - 1] + [s[|s| - 1]];
    RemoveCharAppend(s[..|s| - 1], [s[|s| - 1]], c);
    assert RemoveChar([s[|s| - 1]], c) == [s[|s| - 1]];
  }

  /** `s.replace(p, q)`: left-to-right, non-overlapping. */
  function ReplaceAll(s: string, p: string, q: string): (r: string)
    requires p != []
    ensures forall x :: x in r ==> x in s || x in q
    decreases |s|
  {
    if |s| == 0 then []
    else if StartsWith(s, p) then q + ReplaceAll(s[|p|..], p, q)
    else [s[0]] + ReplaceAll(s[1..], p, q)
  }

  /** `s.lstrip("#")`. */
  function LStripChar(s: string, c: char): (r: string)
    ensures |r| <= |s| && r == s[|s| - |r|..]
    ensures r == [] || r[0] != c
  {
    if |s| > 0 && s[0] == c then LStripChar(s[1..], c) else s
  }

  /** Position of the first `c` in `s`, or `|s|` when there is none. */
  function IndexOf(s: string, c: char): (i: nat)
    ensures i <= |s|
    ensures i < |s| ==> s[i] == c
    ensures forall j :: 0 <= j < i ==> s[j] != c
  {
    if |s| == 0 then 0
    else if s[0] == c then 0
    else 1 + IndexOf(s[1..], c)
  }

  lemma AppendAssoc<T>(a: seq<T>, b: seq<T>, c: seq<T>)
    ensures (a + b) + c == a + (b + c)
  {
  }

  /** Splitting off the head of the left operand of a concatenation. */
  lemma ConsTail<T>(a: seq<T>, b: seq<T>)
    requires |a| > 0
    ensures [a[0]] + (a[1..] + b) == a + b
  {
    assert a == [a[0]] + a[1..];
  }

  /** The first `c` in `a + b` lies in `b` when `a` has none. */
  lemma IndexOfSkip(a: string, b: string, c: char)
    requires c !in a
    ensures IndexOf(a + b, c) == |a| + IndexOf(b, c)
  {
    if |a| > 0 {
      assert (a + b)[1..] == a[1..] + b;
      IndexOfSkip(a[1..], b, c);
    } else {
      assert a + b == b;
    }
  }

  /** `s.split(c)[1]`: the text between the first and the second `c` (to the end when there is no second). */
  function SecondField(s: string, c: char): (r: string)
    requires c in s
    ensures |r| < |s| && c !in r
  {
    var rest := s[IndexOf(s, c) + 1..];
    rest[..IndexOf(rest, c)]
  }

  /** The stripped text of a line holds no line break. */
  lemma StripNoBreak(line: string)
    requires IsLine(line)
    ensures '\n' !in Strip(line)
  {
    var s := Strip(line);
    var a := StripSlice(line);
    forall i | 0 <= i < |s| ensures s[i] != '\n' {
      assert s[i] == line[a + i];
      if a + i == |line| - 1 {
        assert IsSpace('\n');
      }
    }
  }

  /** Concatenation of a sequence of strings (`"".join(lines)`). */
  function Concat(ls: seq<string>): string
  {
    if |ls| == 0 then [] else ls[0] + Concat(ls[1..])
  }

  lemma ConcatCons(x: string, rest: seq<string>)
    ensures Concat([x] + rest) == x + Concat(rest)
  {
    assert ([x] + rest)[1..] == rest;
  }

  lemma ConcatAppend(a: seq<string>, b: seq<string>)
    ensures Concat(a + b) == Concat(a) + Concat(b)
  {
    if |a| > 0 {
      assert (a + b)[1..] == a[1..] + b;
      ConcatAppend(a[1..], b);
    } else {
      assert a + b == b;
    }
  }

  /** `sep.join(ls)`. */
  function Join(sep: string, ls: seq<string>): string
  {
    if |ls| == 0 then []
    else if |ls| == 1 then ls[0]
    else ls[0] + sep + Join(sep, ls[1..])
  }

  /**
   Python's universal-newline translation when a file is opened in text mode:
   `"\r\n"` and a lone `"\r"` both read as `"\n"`.
   */
  function UniversalNewlines(t: string): (r: string)
    ensures '\r' !in r
  {
    if |t| == 0 then []
    else if t[0] == '\r' then
      if |t| > 1 && t[1] == '\n' then "\n" + UniversalNewlines(t[2..])
      else "\n" + UniversalNewlines(t[1..])
    else [t[0]] + UniversalNewlines(t[1..])
  }

  lemma UniversalNewlinesPlain(t: string)
    requires '\r' !in t
    ensures UniversalNewlines(t) == t
  {
    if |t| > 0 {
      assert t == [t[0]] + t[1..];
      UniversalNewlinesPlain(t[1..]);
    }
  }

  /** Text free of carriage returns passes through the translation unchanged, whatever follows. */
  lemma UniversalNewlinesAppend(a: string, b: string)
    requires '\r' !in a
    ensures UniversalNewlines(a + b) == a + UniversalNewlines(b)
  {
    if |a| > 0 {
      assert a[0] != '\r' && (a + b)[0] == a[0];
      assert (a + b)[1..] == a[1..] + b;
      UniversalNewlinesAppend(a[1..], b);
      assert a == [a[0]] + a[1..];
    } else {
      assert a + b == b;
    }
  }

  /** A text line as `readlines()` yields it: at most one `"\n"`, only at its end. */
  predicate IsLine(l: string)
  {
    l != [] && forall i :: 0 <= i < |l| - 1 ==> l[i] != '\n'
  }

  /** Split after every `"\n"`, keeping the line ends (`str.splitlines(True)` on `"\n"` only). */
  function SplitLines(t: string): (r: seq<string>)
    ensures Concat(r) == t
    ensures forall k :: 0 <= k < |r| ==> IsLine(r[k])
    ensures forall k :: 0 <= k < |r| - 1 ==> EndsWith(r[k], "\n")
    decreases |t|
  {
    if |t| == 0 then []
    else
      var i := IndexOf(t, '\n');
      if i == |t| then [t]
      else
        HeadLine(t, i);
        var r := SplitLines(t[i + 1..]);
        LinesCons(t[..i + 1], r);
        assert t == t[..i + 1] + t[i + 1..];
        [t[..i + 1]] + r
  }

  /** Up to and including its first `"\n"`, a text is one complete line. */
  lemma HeadLine(t: string, i: nat)
    requires i < |t| && t[i] == '\n'
    requires forall j :: 0 <= j < i ==> t[j] != '\n'
    ensures IsLine(t[..i + 1]) && EndsWith(t[..i + 1], "\n")
  {
    var h := t[..i + 1];
    forall j | 0 <= j < |h| - 1
      ensures h[j] != '\n'
    {
      assert h[j] == t[j];
    }
    assert h[i..] == [t[i]];
  }

  /** A complete line in front of split lines keeps them split lines. */
  lemma LinesCons(h: string, r: seq<string>)
    requires IsLine(h) && EndsWith(h, "\n")
    requires forall k :: 0 <= k < |r| ==> IsLine(r[k])
    requires forall k :: 0 <= k < |r| - 1 ==> EndsWith(r[k], "\n")
    ensures Concat([h] + r) == h + Concat(r)
    ensures forall k :: 0 <= k < |[h] + r| ==> IsLine(([h] + r)[k])
    ensures forall k :: 0 <= k < |[h] + r| - 1 ==> EndsWith(([h] + r)[k], "\n")
  {
    ConcatCons(h, r);
    assert forall k :: 0 < k < |[h] + r| ==> ([h] + r)[k] == r[k - 1];
  }

  /** The lines of a text file opened for reading (`f.readlines()`, `for line in f`). */
  function ReadLines(text: string): (r: seq<string>)
    ensures forall k, j :: 0 <= k < |r| && 0 <= j < |r[k]| ==> r[k][j] != '\r'
    ensures forall k :: 0 <= k < |r| ==> IsLine(r[k])
  {
    var t := UniversalNewlines(text);
    var r := SplitLines(t);
    forall k, j | 0 <= k < |r| && 0 <= j < |r[k]|
      ensures r[k][j] != '\r'
    {
      ConcatMember(r, k, j);
    }
    r
  }

  /** A line as read from a file: a complete or final line, with no carriage return. */
  predicate ReadLine(x: string)
  {
    IsLine(x) && '\r' !in x
  }

  predicate AllRead(ls: seq<string>)
  {
    forall k :: 0 <= k < |ls| ==> ReadLine(ls[k])
  }

  lemma ReadLinesRead(text: string)
    ensures AllRead(ReadLines(text))
  {
    var r := ReadLines(text);
    forall k | 0 <= k < |r| ensures ReadLine(r[k]) {
      assert forall j :: 0 <= j < |r[k]| ==> r[k][j] != '\r';
    }
  }

  lemma AllReadTail(ls: seq<string>)
    requires |ls| > 0 && AllRead(ls)
    ensures ReadLine(ls[0]) && AllRead(ls[1..])
  {
    assert forall k :: 0 <= k < |ls| - 1 ==> ls[1..][k] == ls[k + 1];
  }

  lemma ConcatMember(ls: seq<string>, k: nat, j: nat)
    requires k < |ls| && j < |ls[k]|
    ensures ls[k][j] in Concat(ls)
  {
    if k == 0 {
      assert Concat(ls) == ls[0] + Concat(ls[1..]);
      assert Concat(ls)[j] == ls[0][j];
    } else {
      ConcatMember(ls[1..], k - 1, j);
      assert Concat(ls) == ls[0] + Concat(ls[1..]);
    }
  }

  /** One line that ends in its only `"\n"` splits into itself. */
  lemma SplitOneLine(l: string)
    requires IsLine(l) && EndsWith(l, "\n")
    ensures SplitLines(l) == [l]
  {
    assert l[|l| - 1] == l[|l| - 1..][0];
    assert IndexOf(l, '\n') == |l| - 1;
    assert l[..|l|] == l;
    assert l[|l|..] == [];
  }

  /** One step of the split: the first line, up to its line end, then the rest. */
  lemma SplitStep(t: string, i: nat)
    requires i == IndexOf(t, '\n') && i < |t|
    ensures SplitLines(t) == [t[..i + 1]] + SplitLines(t[i + 1..])
  {
  }

  /** The first line of `a` is also the first line of `a + b`. */
  lemma SplitHead(a: string, b: string, i: nat)
    requires i == IndexOf(a, '\n') && i < |a|
    ensures SplitLines(a + b) == [a[..i + 1]] + SplitLines(a[i + 1..] + b)
  {
    IndexOfAppend(a, b, '\n');
    AppendSlices(a, b, i + 1);
    SplitStep(a + b, i);
  }

  /** Cutting `a + b` inside `a` cuts `a`. */
  lemma AppendSlices(a: string, b: string, n: nat)
    requires n <= |a|
    ensures (a + b)[..n] == a[..n]
    ensures (a + b)[n..] == a[n..] + b
  {
  }

  /** Splitting distributes over a concatenation whose left part ends a line. */
  lemma SplitAppend(a: string, b: string)
    requires a == [] || EndsWith(a, "\n")
    ensures SplitLines(a + b) == SplitLines(a) + SplitLines(b)
    decreases |a|
  {
    if a == [] {
      assert a + b == b;
    } else {
      var i := IndexOf(a, '\n');
      assert a[|a| - 1] == a[|a| - 1..][0];
      assert i < |a|;
      var h, r := a[..i + 1], a[i + 1..];
      if i + 1 < |a| {
        assert EndsWith(r, "\n") by {
          assert r[|r| - 1..] == a[|a| - 1..];
        }
      }
      SplitHead(a, b, i);
      SplitStep(a, i);
      SplitAppend(r, b);
      AppendAssoc([h], SplitLines(r), SplitLines(b));
    }
  }

  lemma IndexOfAppend(a: string, b: string, c: char)
    requires IndexOf(a, c) < |a|
    ensures IndexOf(a + b, c) == IndexOf(a, c)
  {
    if a[0] != c {
      assert (a + b)[1..] == a[1..] + b;
      IndexOfAppend(a[1..], b, c);
    }
  }

  /** Writing complete lines and reading them back yields the same lines. */
  lemma SplitConcatLines(ls: seq<string>)
    requires forall k :: 0 <= k < |ls| ==> IsLine(ls[k]) && EndsWith(ls[k], "\n")
    ensures SplitLines(Concat(ls)) == ls
  {
    if |ls| > 0 {
      SplitOneLine(ls[0]);
      SplitAppend(ls[0], Concat(ls[1..]));
      SplitConcatLines(ls[1..]);
      assert ls == [ls[0]] + ls[1..];
    }
  }

  /** Every character of the concatenation comes from one of the pieces. */
  lemma ConcatChars(ls: seq<string>, c: char)
    requires forall k :: 0 <= k < |ls| ==> c !in ls[k]
    ensures c !in Concat(ls)
  {
    if |ls| > 0 {
      ConcatChars(ls[1..], c);
    }
  }

  /** Reading back a file written as complete, carriage-return-free lines. */
  lemma ReadWrittenLines(ls: seq<string>)
    requires forall k :: 0 <= k < |ls| ==> IsLine(ls[k]) && EndsWith(ls[k], "\n") && '\r' !in ls[k]
    ensures ReadLines(Concat(ls)) == ls
  {
    ConcatChars(ls, '\r');
    UniversalNewlinesPlain(Concat(ls));
    SplitConcatLines(ls);
  }

  /** A complete first line is read back as the first element, whatever follows it. */
  lemma ReadLinesLead(a: string, b: string)
    requires IsLine(a) && EndsWith(a, "\n") && '\r' !in a
    ensures ReadLines(a + b) == [a] + ReadLines(b)
  {
    UniversalNewlinesAppend(a, b);
    SplitAppend(a, UniversalNewlines(b));
    SplitOneLine(a);
  }
}
