/** Name, path and class-name strings of the plugin registry (Tk\Plugin\Factory).
    Everything here is a total function over strings. */
module PluginNames {

  /** The base name of a plugin's entry-point class and file (Factory::$STARTUP_CLASS). */
  const StartupClass: string := "Plugin"

  /** The characters PHP's trim() strips when it is given no character list. */
  const Whitespace: set<char> := {' ', '\t', '\n', '\r', '\0', '\U{B}'}

  /** The characters a cleaned plugin name may hold: [a-zA-Z0-9_-]. */
  predicate IsNameChar(ch: char) {
    ('a' <= ch <= 'z') || ('A' <= ch <= 'Z') || ('0' <= ch <= '9') || ch == '_' || ch == '-'
  }

  /** The characters the default class namespace keeps: [a-z0-9]. */
  predicate IsLowerAlnum(ch: char) {
    ('a' <= ch <= 'z') || ('0' <= ch <= '9')
  }

  predicate IsCleanName(s: string) {
    forall i :: 0 <= i < |s| ==> IsNameChar(s[i])
  }

  // ---------------------------------------------------------------------------
  // String primitives used by the source (strrpos, substr, trim, preg_replace)
  // ---------------------------------------------------------------------------

  /** strrpos: the index of the last c in s, or -1 when s has no c. */
  function LastIndexOf(s: string, c: char): (r: int)
    ensures -1 <= r < |s|
    ensures r >= 0 ==> s[r] == c
    ensures forall j :: r < j < |s| ==> s[j] != c
  {
    if s == [] then -1
    else if s[|s| - 1] == c then |s| - 1
    else LastIndexOf(s[..|s| - 1], c)
  }

  /** `if (strstr(s, c)) s = substr(s, strrpos(s, c) + 1)`: the longest suffix of s
      without c, which is all of s when c does not occur. */
  function TextAfterLast(s: string, c: char): (r: string)
    ensures |r| <= |s|
    ensures c !in r
    ensures c !in s ==> r == s
    ensures c in s ==> |r| < |s| && s[|s| - |r| - 1] == c
  {
    if c in s then s[LastIndexOf(s, c) + 1..] else s
  }

  /** The text after the last c is a suffix of s. */
  lemma AfterLastIsSuffix(s: string, c: char)
    ensures var r := TextAfterLast(s, c);
      forall i :: 0 <= i < |r| ==> r[i] == s[|s| - |r| + i]
  {
  }

  /** preg_replace('/[^a-zA-Z0-9_-]/', '', s): drops every character outside the name set. */
  function StripDisallowed(s: string): (r: string)
    ensures |r| <= |s|
    ensures IsCleanName(r)
  {
    if s == [] then []
    else (if IsNameChar(s[0]) then [s[0]] else []) + StripDisallowed(s[1..])
  }

  /** What is left is clean, and it is exactly the characters of s in the name set. */
  lemma {:induction false} StripDisallowedKeepsNameChars(s: string)
    ensures IsCleanName(StripDisallowed(s))
    ensures forall ch :: ch in StripDisallowed(s) <==> ch in s && IsNameChar(ch)
  {
    if s != [] {
      StripDisallowedKeepsNameChars(s[1..]);
      assert s == [s[0]] + s[1..];
    }
  }

  /** Stripping works character by character: it distributes over concatenation. */
  lemma {:induction false} StripAppend(a: string, b: string)
    ensures StripDisallowed(a + b) == StripDisallowed(a) + StripDisallowed(b)
  {
    if a != [] {
      assert (a + b)[1..] == a[1..] + b;
      StripAppend(a[1..], b);
    } else {
      assert a + b == b;
    }
  }

  /** A single character survives exactly when it is in the name set. */
  lemma StripOne(ch: char)
    ensures StripDisallowed([ch]) == if IsNameChar(ch) then [ch] else []
  {
    assert [ch][1..] == [];
  }

  lemma {:induction false} StripKeepsCleanText(s: string)
    requires IsCleanName(s)
    ensures StripDisallowed(s) == s
  {
    if s != [] {
      StripKeepsCleanText(s[1..]);
    }
  }

  /** trim(s, chars): drops the leading characters that are in cs. */
  function TrimLeft(s: string, cs: set<char>): (r: string)
    ensures |r| <= |s|
  {
    if s != [] && s[0] in cs then TrimLeft(s[1..], cs) else s
  }

  /** trim(s, chars): drops the trailing characters that are in cs. */
  function TrimRight(s: string, cs: set<char>): (r: string)
    ensures |r| <= |s|
  {
    if s != [] && s[|s| - 1] in cs then TrimRight(s[..|s| - 1], cs) else s
  }

  /** PHP trim(s, chars). */
  function Trim(s: string, cs: set<char>): (r: string)
    ensures |r| <= |s|
  {
    TrimRight(TrimLeft(s, cs), cs)
  }

  /** The left trim is the suffix of s left after dropping a run of characters of cs,
      does not start with a character of cs, and is s itself when s holds none of them. */
  lemma {:induction false} TrimLeftSpec(s: string, cs: set<char>)
    ensures var r := TrimLeft(s, cs);
      r == s[|s| - |r|..] && (forall i :: 0 <= i < |s| - |r| ==> s[i] in cs) &&
      (r != [] ==> r[0] !in cs) && ((forall i :: 0 <= i < |s| ==> s[i] !in cs) ==> r == s)
  {
    if s != [] && s[0] in cs {
      var tail := s[1..];
      TrimLeftSpec(tail, cs);
      var r := TrimLeft(s, cs);
      assert tail[|tail| - |r|..] == s[|s| - |r|..];
      forall i | 0 <= i < |s| - |r| ensures s[i] in cs {
        if i > 0 {
          assert s[i] == tail[i - 1];
        }
      }
    }
  }

  /** The right trim is the prefix of s left after dropping a run of characters of cs,
      does not end with a character of cs, and is s itself when s holds none of them. */
  lemma {:induction false} TrimRightSpec(s: string, cs: set<char>)
    ensures var r := TrimRight(s, cs);
      r == s[..|r|] && (forall i :: |r| <= i < |s| ==> s[i] in cs) &&
      (r != [] ==> r[|r| - 1] !in cs) && ((forall i :: 0 <= i < |s| ==> s[i] !in cs) ==> r == s)
  {
    if s != [] && s[|s| - 1] in cs {
      var init := s[..|s| - 1];
      TrimRightSpec(init, cs);
      var r := TrimRight(s, cs);
      assert init[..|r|] == s[..|r|];
      forall i | |r| <= i < |s| ensures s[i] in cs {
        if i < |s| - 1 {
          assert s[i] == init[i];
        }
      }
    }
  }

  /** A prefix r of a suffix l of s, both cut off by runs of characters of cs, is the
      slice of s between the two runs. */
  lemma SliceBetweenRuns(s: string, l: string, r: string, cs: set<char>)
    requires |l| <= |s| && l == s[|s| - |l|..] && (forall i :: 0 <= i < |s| - |l| ==> s[i] in cs)
    requires |r| <= |l| && r == l[..|r|] && (forall i :: |r| <= i < |l| ==> l[i] in cs)
    ensures var k := |s| - |l|;
      r == s[k..k + |r|] && forall i :: k + |r| <= i < |s| ==> s[i] in cs
  {
    var k := |s| - |l|;
    forall i | k + |r| <= i < |s| ensures s[i] in cs {
      assert s[i] == l[i - k];
    }
  }

  /** trim() is the slice s[k..k+|r|] where k counts the leading characters dropped:
      everything before and after it is in cs, it neither starts nor ends with a character
      of cs, and it is s itself when s holds none of them. */
  lemma TrimSpec(s: string, cs: set<char>)
    ensures var r := Trim(s, cs); var k := |s| - |TrimLeft(s, cs)|;
      k + |r| <= |s| && r == s[k..k + |r|] &&
      (forall i :: 0 <= i < k ==> s[i] in cs) && (forall i :: k + |r| <= i < |s| ==> s[i] in cs) &&
      (r != [] ==> r[0] !in cs && r[|r| - 1] !in cs) &&
      ((forall i :: 0 <= i < |s| ==> s[i] !in cs) ==> r == s)
  {
    var l := TrimLeft(s, cs);
    var r := TrimRight(l, cs);
    assert Trim(s, cs) == r;
    TrimLeftSpec(s, cs);
    TrimRightSpec(l, cs);
    SliceBetweenRuns(s, l, r, cs);
    assert Trim(s, cs) == s[|s| - |l|..|s| - |l| + |r|];
    assert r != [] ==> r[0] == l[0];
  }

  // ---------------------------------------------------------------------------
  // Factory::cleanPluginName
  // ---------------------------------------------------------------------------

  /** cleanPluginName: keeps the text after the last '/', then drops every character
      outside [a-zA-Z0-9_-]. */
  function CleanPluginName(name: string): (r: string)
    ensures IsCleanName(r)
    ensures '/' !in r && '.' !in r
  {
    StripDisallowed(TextAfterLast(name, '/'))
  }

  /** Cleaning only drops characters: every character of the clean name is in the input. */
  lemma CleanKeepsOwnCharacters(name: string)
    ensures forall ch :: ch in CleanPluginName(name) ==> ch in name
  {
    StripDisallowedKeepsNameChars(TextAfterLast(name, '/'));
    AfterLastIsSuffix(name, '/');
  }

  lemma CleanNameHasNoSlash(s: string)
    requires IsCleanName(s)
    ensures '/' !in s
  {
  }

  /** The clean names are exactly the fixed points of cleanPluginName. */
  lemma CleanFixedPoint(s: string)
    ensures CleanPluginName(s) == s <==> IsCleanName(s)
  {
    if IsCleanName(s) {
      CleanNameHasNoSlash(s);
      StripKeepsCleanText(s);
    }
  }

  /** Cleaning twice is cleaning once. */
  lemma CleanIdempotent(name: string)
    ensures CleanPluginName(CleanPluginName(name)) == CleanPluginName(name)
  {
    CleanFixedPoint(CleanPluginName(name));
  }

  /** A directory prefix makes no difference: "a/b-plugin" cleans like "b-plugin". */
  lemma CleanIgnoresDirectory(dir: string, name: string)
    ensures CleanPluginName(dir + "/" + name) == CleanPluginName(name)
  {
    AfterLastIgnoresPrefix(dir + "/", name, '/');
  }

  /** The text after the last c ignores a prefix that ends in c. */
  lemma AfterLastIgnoresPrefix(p: string, s: string, c: char)
    requires |p| > 0 && p[|p| - 1] == c
    ensures TextAfterLast(p + s, c) == TextAfterLast(s, c)
  {
    var t := p + s;
    LastIndexAfterPrefix(p, s, c);
    assert t[|p| - 1] == c;
    if c in s {
      var j := LastIndexOf(s, c);
      assert t[|p| + j + 1..] == s[j + 1..];
    } else {
      LastIndexAt(p, c, |p| - 1);
      assert t[|p|..] == s;
    }
  }

  /** The last c of s is at i when s[i] is c and no c follows it. */
  lemma LastIndexAt(s: string, c: char, i: int)
    requires 0 <= i < |s| && s[i] == c
    requires forall j :: i < j < |s| ==> s[j] != c
    ensures LastIndexOf(s, c) == i
  {
  }

  /** An index of s that no c follows is, shifted by |p|, an index of p + s that no c
      follows. */
  lemma NoneAfterShifted(p: string, s: string, c: char, i: int)
    requires -1 <= i < |s|
    requires forall j :: i < j < |s| ==> s[j] != c
    ensures forall k :: |p| + i < k < |p + s| ==> (p + s)[k] != c
  {
    forall k | |p| + i < k < |p + s| ensures (p + s)[k] != c {
      assert (p + s)[k] == s[k - |p|];
    }
  }

  /** An index of p that no c follows, in p or in s, is one that no c follows in p + s. */
  lemma NoneAfterInPrefix(p: string, s: string, c: char, i: int)
    requires 0 <= i < |p|
    requires forall j :: i < j < |p| ==> p[j] != c
    requires c !in s
    ensures forall k :: i < k < |p + s| ==> (p + s)[k] != c
  {
    forall k | i < k < |p + s| ensures (p + s)[k] != c {
      if k < |p| {
        assert (p + s)[k] == p[k];
      } else {
        assert (p + s)[k] == s[k - |p|];
      }
    }
  }

  /** Where the last c of p + s lies, given that p holds a c. */
  lemma LastIndexAfterPrefix(p: string, s: string, c: char)
    requires c in p
    ensures c in s ==> LastIndexOf(p + s, c) == |p| + LastIndexOf(s, c)
    ensures c !in s ==> LastIndexOf(p + s, c) == LastIndexOf(p, c)
  {
    if c in s {
      var j := LastIndexOf(s, c);
      if j < 0 {
        assert false;
      }
      NoneAfterShifted(p, s, c, j);
      assert (p + s)[|p| + j] == s[j];
      LastIndexAt(p + s, c, |p| + j);
    } else {
      var i := LastIndexOf(p, c);
      if i < 0 {
        assert false;
      }
      NoneAfterInPrefix(p, s, c, i);
      assert (p + s)[i] == p[i];
      LastIndexAt(p + s, c, i);
    }
  }

  // ---------------------------------------------------------------------------
  // Factory::getPluginPath
  // ---------------------------------------------------------------------------

  /** PHP's `!$s` on a string: true for "" and for "0". */
  predicate IsFalsy(s: string) {
    s == "" || s == "0"
  }

  /** getPluginPath: the plugin root when the cleaned name is falsy, otherwise the root
      and the cleaned name joined by '/' (trimming '/' off a cleaned name changes nothing). */
  function PluginPath(root: string, name: string): (r: string)
    ensures IsFalsy(CleanPluginName(name)) ==> r == root
    ensures !IsFalsy(CleanPluginName(name)) ==> r == root + "/" + CleanPluginName(name)
  {
    var clean := CleanPluginName(name);
    if IsFalsy(clean) then root else root + "/" + Trim(clean, {'/'})
  }

  /** A plugin path is the root itself or exactly one clean, non-empty segment below it;
      the segment holds no '/' and no '.', so it cannot name a parent directory. */
  lemma PluginPathStaysUnderRoot(root: string, name: string)
    ensures var r := PluginPath(root, name);
      r == root ||
      (|r| > |root| + 1 && r[..|root| + 1] == root + "/" &&
       IsCleanName(r[|root| + 1..]) && '/' !in r[|root| + 1..] && '.' !in r[|root| + 1..])
  {
    var c := CleanPluginName(name);
    if !IsFalsy(c) {
      var r := PluginPath(root, name);
      assert r[|root| + 1..] == c;
    }
  }

  /** A plugin named "0" resolves to the plugin root, because "0" is falsy in PHP. */
  lemma PluginPathOfZeroIsRoot(root: string)
    ensures PluginPath(root, "0") == root
    ensures PluginPath(root, "x/0") == root
  {
    var zero := "0";
    assert IsCleanName(zero) by {
      assert IsNameChar(zero[0]);
    }
    CleanFixedPoint(zero);
    CleanIgnoresDirectory("x", zero);
  }

  // ---------------------------------------------------------------------------
  // Factory::makePluginClassname, default (non-psr-0) branch
  // ---------------------------------------------------------------------------

  /** preg_replace('/[^a-z0-9]/', '-', s): every character outside [a-z0-9] becomes '-'. */
  function DashOutsideLowerAlnum(s: string): (r: string)
    ensures |r| == |s|
    ensures forall i :: 0 <= i < |s| ==> r[i] == (if IsLowerAlnum(s[i]) then s[i] else '-')
  {
    if s == [] then []
    else [if IsLowerAlnum(s[0]) then s[0] else '-'] + DashOutsideLowerAlnum(s[1..])
  }

  /** ns is the longest run of [a-z0-9] characters that ends c. */
  predicate IsTrailingLowerAlnumRun(ns: string, c: string) {
    && |ns| <= |c| && ns == c[|c| - |ns|..]
    && (forall i :: 0 <= i < |ns| ==> IsLowerAlnum(ns[i]))
    && (|ns| < |c| ==> !IsLowerAlnum(c[|c| - |ns| - 1]))
  }

  /** The text after the last '-' of the dashed form of c is the longest run of
      [a-z0-9] characters that ends c. */
  lemma DashedSuffix(c: string)
    ensures IsTrailingLowerAlnumRun(TextAfterLast(DashOutsideLowerAlnum(c), '-'), c)
  {
    var d := DashOutsideLowerAlnum(c);
    var ns := TextAfterLast(d, '-');
    if '-' in d {
      AfterLastIsSuffix(d, '-');
    }
    TailOfDashed(c, d, ns);
  }

  /** DashedSuffix on plain sequences: d is c with '-' for every character outside
      [a-z0-9], and ns is the suffix of d after its last '-'. */
  lemma TailOfDashed(c: string, d: string, ns: string)
    requires |d| == |c| && forall i :: 0 <= i < |c| ==> d[i] == (if IsLowerAlnum(c[i]) then c[i] else '-')
    requires |ns| <= |d| && forall i :: 0 <= i < |ns| ==> ns[i] == d[|d| - |ns| + i]
    requires '-' !in ns
    requires |ns| < |d| ==> d[|d| - |ns| - 1] == '-'
    ensures IsTrailingLowerAlnumRun(ns, c)
  {
    forall i | 0 <= i < |ns| ensures IsLowerAlnum(ns[i]) && ns[i] == c[|c| - |ns| + i] {
      assert ns[i] == d[|d| - |ns| + i];
    }
    assert ns == c[|c| - |ns|..];
  }

  /** trim() leaves a clean name alone: it holds no whitespace. */
  lemma TrimKeepsCleanName(c: string)
    requires IsCleanName(c)
    ensures Trim(c, Whitespace) == c
  {
    forall i | 0 <= i < |c| ensures c[i] !in Whitespace {
      assert IsNameChar(c[i]);
    }
  }

  /** The namespace of the default class (the `$ns` of makePluginClassname). */
  function ClassNamespace(name: string): (r: string) {
    // trim() of the cleaned name, '-' for every character outside [a-z0-9], and the
    // text after the last '-' when there is one
    TextAfterLast(DashOutsideLowerAlnum(Trim(CleanPluginName(name), Whitespace)), '-')
  }

  /** The namespace is the longest run of [a-z0-9] characters that ends the cleaned
      plugin name. */
  lemma ClassNamespaceIsTrailingRun(name: string)
    ensures IsTrailingLowerAlnumRun(ClassNamespace(name), CleanPluginName(name))
  {
    var clean := CleanPluginName(name);
    TrimKeepsCleanName(clean);
    DashedSuffix(clean);
  }

  /** A string has only one longest trailing [a-z0-9] run. */
  lemma TrailingRunUnique(a: string, b: string, c: string)
    requires IsTrailingLowerAlnumRun(a, c) && IsTrailingLowerAlnumRun(b, c)
    ensures a == b
  {
  }

  /** The namespace can be read back from a class name built around it. */
  lemma WrappedNamespaceInjective(a: string, b: string)
    requires "\\" + a + "\\" + StartupClass == "\\" + b + "\\" + StartupClass
    ensures a == b
  {
    var w := "\\" + a + "\\" + StartupClass;
    assert |a| == |b|;
    assert a == w[1..1 + |a|];
  }

  /** makePluginClassname, default branch: `\<namespace>\Plugin`. */
  function DefaultClassname(name: string): (r: string) {
    "\\" + ClassNamespace(name) + "\\" + StartupClass
  }

  /** The default class of a plugin is `\ns\Plugin` exactly when ns is the longest run
      of [a-z0-9] characters that ends its cleaned name. */
  lemma DefaultClassnameCharacterized(name: string, ns: string)
    ensures DefaultClassname(name) == "\\" + ns + "\\" + StartupClass
        <==> IsTrailingLowerAlnumRun(ns, CleanPluginName(name))
  {
    var own := ClassNamespace(name);
    ClassNamespaceIsTrailingRun(name);
    if DefaultClassname(name) == "\\" + ns + "\\" + StartupClass {
      WrappedNamespaceInjective(own, ns);
    }
    if IsTrailingLowerAlnumRun(ns, CleanPluginName(name)) {
      TrailingRunUnique(ns, own, CleanPluginName(name));
    }
  }
}
