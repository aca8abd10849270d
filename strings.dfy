/**
 * The string operations the plugin relies on, with JavaScript and Node
 * semantics: `String.prototype.split` on one character, `Array.prototype.join`,
 * an ordinal name order (code point by code point), `String.prototype.trim`,
 * and Node's `path.basename`, `path.extname` and vinyl's extension replacement.
 */
module Strings {

  /** First index of `c` in `s`, or `|s|` when `c` does not occur. */
  function IndexOf(s: string, c: char): (i: nat)
    ensures i <= |s| && (i < |s| ==> s[i] == c)
    ensures forall j :: 0 <= j < i ==> s[j] != c
  {
    if s == [] || s[0] == c then 0 else 1 + IndexOf(s[1..], c)
  }

  /** `s.split(c)`: never empty, and an empty string splits into `[""]`. */
  function Split(s: string, c: char): (parts: seq<string>)
    ensures |parts| >= 1
    ensures forall i :: 0 <= i < |parts| ==> c !in parts[i]
    ensures Join(parts, c) == s
    decreases |s|
  {
    var i := IndexOf(s, c);
    if i == |s| then [s]
    else
      var rest := Split(s[i + 1..], c);
      assert s == s[..i] + [c] + s[i + 1..];
      [s[..i]] + rest
  }

  /** `parts.join(c)`. */
  function Join(parts: seq<string>, c: char): string
    requires |parts| >= 1
  {
    if |parts| == 1 then parts[0] else parts[0] + [c] + Join(parts[1..], c)
  }

  lemma IndexOfAfterPrefix(p: string, c: char, rest: string)
    requires c !in p
    ensures IndexOf(p + [c] + rest, c) == |p|
  {
    var s := p + [c] + rest;
    var i := IndexOf(s, c);
    assert s[|p|] == c;
    forall j | 0 <= j < |p|
      ensures s[j] != c
    {
      assert s[j] == p[j];
    }
  }

  /** Splitting undoes joining when no part contains the separator. */
  lemma {:induction false} SplitJoin(parts: seq<string>, c: char)
    requires |parts| >= 1 && forall i :: 0 <= i < |parts| ==> c !in parts[i]
    ensures Split(Join(parts, c), c) == parts
    decreases |parts|
  {
    if |parts| > 1 {
      SplitJoin(parts[1..], c);
      SplitCons(parts[0], c, Join(parts[1..], c));
      assert parts == [parts[0]] + parts[1..];
    } else {
      assert IndexOf(parts[0], c) == |parts[0]|;
    }
  }

  /** A separator-free head splits off as the first part. */
  lemma SplitCons(p: string, c: char, rest: string)
    requires c !in p
    ensures Split(p + [c] + rest, c) == [p] + Split(rest, c)
  {
    var s := p + [c] + rest;
    IndexOfAfterPrefix(p, c, rest);
    assert s[..|p|] == p;
    assert s[|p| + 1..] == rest;
  }

  lemma {:induction false} JoinAppend(a: seq<string>, b: seq<string>, c: char)
    requires |a| >= 1 && |b| >= 1
    ensures Join(a + b, c) == Join(a, c) + [c] + Join(b, c)
    decreases |a|
  {
    if |a| > 1 {
      assert (a + b)[1..] == a[1..] + b;
      JoinAppend(a[1..], b, c);
    } else {
      assert (a + b)[1..] == b;
    }
  }

  /** Ordinal string order (code point by code point, a proper prefix first). */
  predicate LexLess(a: string, b: string)
    decreases |a|
  {
    if a == [] then b != []
    else b != [] && (a[0] < b[0] || (a[0] == b[0] && LexLess(a[1..], b[1..])))
  }

  lemma {:induction false} LexLessIrreflexive(a: string)
    ensures !LexLess(a, a)
    decreases |a|
  {
    if a != [] { LexLessIrreflexive(a[1..]); }
  }

  lemma {:induction false} LexLessTotal(a: string, b: string)
    ensures a == b || LexLess(a, b) || LexLess(b, a)
    decreases |a|
  {
    if a != [] && b != [] && a[0] == b[0] {
      LexLessTotal(a[1..], b[1..]);
      if a[1..] == b[1..] {
        assert a == [a[0]] + a[1..] && b == [b[0]] + b[1..];
      }
    }
  }

  lemma {:induction false} LexLessAsymmetric(a: string, b: string)
    ensures !(LexLess(a, b) && LexLess(b, a))
    decreases |a|
  {
    if a != [] && b != [] && a[0] == b[0] { LexLessAsymmetric(a[1..], b[1..]); }
  }

  lemma {:induction false} LexLessTransitive(a: string, b: string, c: string)
    requires LexLess(a, b) && LexLess(b, c)
    ensures LexLess(a, c)
    decreases |a|
  {
    if a != [] && a[0] == b[0] && b[0] == c[0] { LexLessTransitive(a[1..], b[1..], c[1..]); }
  }

  /** A proper prefix sorts first. */
  lemma {:induction false} PrefixLexLess(a: string, b: string)
    requires |a| < |b| && b[..|a|] == a
    ensures LexLess(a, b)
    decreases |a|
  {
    if a != [] {
      assert a[0] == b[0];
      assert b[1..][..|a| - 1] == a[1..];
      PrefixLexLess(a[1..], b[1..]);
    }
  }

  /** The characters `String.prototype.trim` removes: ECMAScript WhiteSpace and LineTerminator. */
  predicate IsSpace(ch: char) {
    || ch == '\t' || ch == '\n' || ch == '\U{B}' || ch == '\U{C}' || ch == '\r' || ch == ' '
    || ch == '\U{A0}' || ch == '\U{1680}' || ('\U{2000}' <= ch <= '\U{200A}')
    || ch == '\U{2028}' || ch == '\U{2029}' || ch == '\U{202F}' || ch == '\U{205F}'
    || ch == '\U{3000}' || ch == '\U{FEFF}'
  }

  function LeadingSpace(s: string): (n: nat)
    ensures n <= |s| && (forall i :: 0 <= i < n ==> IsSpace(s[i]))
    ensures n < |s| ==> !IsSpace(s[n])
  {
    if s != [] && IsSpace(s[0]) then 1 + LeadingSpace(s[1..]) else 0
  }

  function TrailingSpace(s: string): (n: nat)
    ensures n <= |s| && (forall i :: |s| - n <= i < |s| ==> IsSpace(s[i]))
    ensures n < |s| ==> !IsSpace(s[|s| - 1 - n])
  {
    if s != [] && IsSpace(s[|s| - 1]) then 1 + TrailingSpace(s[..|s| - 1]) else 0
  }

  /** `s.trim()`: the middle of `s` after dropping white space at both ends. */
  function Trim(s: string): (r: string)
    ensures exists a, b ::
              && 0 <= a <= b <= |s| && r == s[a..b]
              && (forall i :: 0 <= i < a ==> IsSpace(s[i]))
              && (forall i :: b <= i < |s| ==> IsSpace(s[i]))
    ensures r != [] ==> !IsSpace(r[0]) && !IsSpace(r[|r| - 1])
  {
    var a := LeadingSpace(s);
    var b := |s| - TrailingSpace(s[a..]);
    assert s[a..][..b - a] == s[a..b];
    s[a..b]
  }

  /** The index just after the last '/' of `p`, or 0 when there is none. */
  function BaseStart(p: string): (k: nat)
    ensures k <= |p|
    ensures k > 0 ==> p[k - 1] == '/'
    ensures forall i :: k <= i < |p| ==> p[i] != '/'
  {
    if p == [] || p[|p| - 1] == '/' then |p| else BaseStart(p[..|p| - 1])
  }

  /** The three properties of `BaseStart` determine it. */
  lemma BaseStartUnique(p: string, k: nat)
    requires k <= |p| && (k > 0 ==> p[k - 1] == '/')
    requires forall i :: k <= i < |p| ==> p[i] != '/'
    ensures BaseStart(p) == k
  {
    var k' := BaseStart(p);
    assert k' > 0 ==> p[k' - 1] == '/';
    assert k > 0 ==> p[k - 1] == '/';
  }

  /** Node's `path.basename` (POSIX) for a path without trailing separators. */
  function Basename(p: string): (b: string)
    ensures |b| <= |p| && '/' !in b
  {
    p[BaseStart(p)..]
  }

  /** Appending a tail free of '/' extends the base name by that tail. */
  lemma BasenameAppend(p: string, tail: string)
    requires '/' !in tail
    ensures Basename(p + tail) == Basename(p) + tail
  {
    var k := BaseStart(p);
    var q := p + tail;
    forall i | k <= i < |q| ensures q[i] != '/' {
      if i >= |p| { assert q[i] == tail[i - |p|]; }
    }
    BaseStartUnique(q, k);
    assert q[k..] == p[k..] + tail;
  }

  /** Index of the last '.' in `s`, or `|s|` when there is none. */
  function LastDot(s: string): (d: nat)
    ensures d <= |s|
    ensures d < |s| ==> s[d] == '.' && forall i :: d < i < |s| ==> s[i] != '.'
    ensures d == |s| ==> forall i :: 0 <= i < |s| ==> s[i] != '.'
  {
    if s == [] then 0
    else if s[|s| - 1] == '.' then |s| - 1
    else
      var d := LastDot(s[..|s| - 1]);
      if d == |s| - 1 then |s| else d
  }

  /**
   * Node's `path.extname` for a path without trailing separators: from the last
   * '.' of the base name, except that a base name with no dot, one whose only
   * dot leads it, and ".." have no extension.
   */
  function Extname(p: string): (e: string)
    ensures |e| <= |Basename(p)| && e == Basename(p)[|Basename(p)| - |e|..]
    ensures e != "" ==> e[0] == '.' && |e| < |Basename(p)|
  {
    ExtensionOf(Basename(p))
  }

  /** The extension of a base name `b`. */
  function ExtensionOf(b: string): (e: string)
    ensures |e| <= |b| && e == b[|b| - |e|..]
    ensures e != "" ==> e[0] == '.' && |e| < |b| && forall i :: 0 < i < |e| ==> e[i] != '.'
  {
    var d := LastDot(b);
    if d == |b| || d == 0 || b == ".." then "" else b[d..]
  }

  /** vinyl's `file.extname = ext`: the extension, if any, replaced by `ext`. */
  function ReplaceExt(p: string, ext: string): string {
    var e := Extname(p);
    p[..|p| - |e|] + ext
  }

  /** Cutting `k` characters off the end of a path cuts them off its base name. */
  lemma BasenameOfPrefix(p: string, k: nat)
    requires k <= |Basename(p)|
    ensures Basename(p[..|p| - k]) == Basename(p)[..|Basename(p)| - k]
  {
    var k0 := BaseStart(p);
    var q := p[..|p| - k];
    assert k0 <= |q|;
    assert k0 > 0 ==> q[k0 - 1] == '/';
    assert forall i :: k0 <= i < |q| ==> q[i] == p[i];
    BaseStartUnique(q, k0);
    assert q[k0..] == p[k0..][..|p| - k0 - k];
  }

  /** The three properties of `LastDot` determine it when a dot exists. */
  lemma LastDotUnique(s: string, d: nat)
    requires d < |s| && s[d] == '.' && forall i :: d < i < |s| ==> s[i] != '.'
    ensures LastDot(s) == d
  {
    var d' := LastDot(s);
    assert d' < |s| ==> s[d'] == '.';
  }

  /** An extension: a leading '.', at least one more character, no other '.' and no '/'. */
  predicate IsExtension(ext: string) {
    |ext| >= 2 && ext[0] == '.' && '/' !in ext && forall i :: 0 < i < |ext| ==> ext[i] != '.'
  }

  /** A non-empty base name followed by an extension has exactly that extension. */
  lemma ExtensionOfAppended(sb: string, ext: string)
    requires |sb| >= 1 && IsExtension(ext)
    ensures ExtensionOf(sb + ext) == ext
  {
    var nb := sb + ext;
    forall i | |sb| < i < |nb| ensures nb[i] != '.' {
      assert nb[i] == ext[i - |sb|];
    }
    LastDotUnique(nb, |sb|);
    assert |nb| != 2;
    assert nb[|sb|..] == ext;
  }

  /** Replacing the extension replaces it in the base name. */
  lemma BasenameOfReplaced(p: string, ext: string)
    requires '/' !in ext
    ensures Basename(ReplaceExt(p, ext)) == Basename(p)[..|Basename(p)| - |Extname(p)|] + ext
  {
    var e := ExtensionOf(Basename(p));
    var stem := p[..|p| - |e|];
    assert ReplaceExt(p, ext) == stem + ext;
    BasenameOfPrefix(p, |e|);
    BasenameAppend(stem, ext);
  }

  /** A path with a non-empty base name gets exactly the new extension. */
  lemma ReplacedExtension(p: string, ext: string)
    requires Basename(p) != "" && IsExtension(ext)
    ensures Extname(ReplaceExt(p, ext)) == ext
  {
    var b := Basename(p);
    var sb := b[..|b| - |Extname(p)|];
    assert |sb| >= 1;
    BasenameOfReplaced(p, ext);
    ExtensionOfAppended(sb, ext);
  }
}
