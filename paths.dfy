/**
 * The three functions of Python's `os.path` (POSIX flavour, `posixpath`) that the
 * program relies on: `splitext`, `join` with two arguments, and `basename`.
 * The separator is '/' and the extension separator is '.'.
 */
module Paths {

  /** `s.rfind(c)`: the index of the last occurrence of `c` in `s`, or -1. */
  function LastIndex(s: string, c: char): (r: int)
    ensures -1 <= r < |s|
    ensures r >= 0 ==> s[r] == c
    ensures forall i :: r < i < |s| ==> s[i] != c
  {
    if s == [] then -1
    else if s[|s| - 1] == c then |s| - 1
    else LastIndex(s[..|s| - 1], c)
  }

  /** The three facts LastIndex promises determine it. */
  lemma LastIndexIs(s: string, c: char, k: int)
    requires -1 <= k < |s|
    requires k >= 0 ==> s[k] == c
    requires forall i :: k < i < |s| ==> s[i] != c
    ensures LastIndex(s, c) == k
  {
  }

  predicate OnlyDots(s: string) {
    forall i :: 0 <= i < |s| ==> s[i] == '.'
  }

  /**
   * `os.path.splitext(p)`: the split is at the last dot of the last path component;
   * dots that open the component never start an extension, so ".txt" and "..txt"
   * have an empty extension.
   */
  function SplitExt(p: string): (r: (string, string))
    ensures r.0 + r.1 == p
    ensures r.1 == [] || IsExtension(r.1)
  {
    var sep := LastIndex(p, '/');
    var dot := LastIndex(p, '.');
    if dot > sep && !OnlyDots(p[sep + 1..dot]) then
      ExtensionAt(p, sep, dot);
      (p[..dot], p[dot..])
    else
      (p, [])
  }

  /** What follows the last dot, when that dot is after the last separator, is an extension. */
  lemma ExtensionAt(p: string, sep: int, dot: int)
    requires -1 <= sep < dot < |p| && p[dot] == '.'
    requires forall i :: sep < i < |p| ==> p[i] != '/'
    requires forall i :: dot < i < |p| ==> p[i] != '.'
    ensures p[..dot] + p[dot..] == p
    ensures IsExtension(p[dot..])
  {
    var e := p[dot..];
    forall i | 0 <= i < |e| ensures e[i] == p[dot + i] && e[i] != '/' {
    }
    forall i | 1 <= i < |e| ensures e[i] != '.' {
      assert e[i] == p[dot + i];
    }
  }

  /** A non-empty extension: one leading dot, no other dot and no separator. */
  predicate IsExtension(e: string) {
    |e| > 0 && e[0] == '.' && (forall i :: 1 <= i < |e| ==> e[i] != '.') && '/' !in e
  }

  /** `os.path.basename(p)`: what follows the last separator. */
  function Basename(p: string): string {
    p[LastIndex(p, '/') + 1..]
  }

  /** The last component of `b` holds something other than dots. */
  predicate HasStem(b: string) {
    !OnlyDots(Basename(b))
  }

  /** `os.path.join(a, b)` with two arguments. */
  function Join(a: string, b: string): string {
    if |b| > 0 && b[0] == '/' then b
    else if a == [] || a[|a| - 1] == '/' then a + b
    else a + "/" + b
  }

  /**
   * Appending an extension to `b` and splitting again gives `b` back exactly when
   * the last component of `b` has a stem; otherwise nothing is split off.
   */
  lemma SplitExtAppend(b: string, e: string)
    requires IsExtension(e)
    ensures SplitExt(b + e) == if HasStem(b) then (b, e) else (b + e, [])
  {
    var p := b + e;
    LastIndexAppend(b, e, '/');
    LastIndexAtExtension(b, e);
    assert p[LastIndex(b, '/') + 1..|b|] == Basename(b);
    assert p[..|b|] == b && p[|b|..] == e;
  }

  lemma LastIndexAppend(b: string, e: string, c: char)
    requires c !in e
    ensures LastIndex(b + e, c) == LastIndex(b, c)
  {
    var p := b + e;
    var k := LastIndex(b, c);
    forall i | k < i < |p| ensures p[i] != c {
      if i >= |b| {
        assert p[i] == e[i - |b|];
      } else {
        assert p[i] == b[i];
      }
    }
    LastIndexIs(p, c, k);
  }

  lemma LastIndexAtExtension(b: string, e: string)
    requires IsExtension(e)
    ensures LastIndex(b + e, '.') == |b|
  {
    var p := b + e;
    forall i | |b| < i < |p| ensures p[i] != '.' {
      assert p[i] == e[i - |b|];
    }
    LastIndexIs(p, '.', |b|);
  }

  /** A name made of a stem that starts with no dot and holds no separator, then an extension, splits there. */
  lemma SplitNamed(name: string, stem: string, extension: string)
    requires name == stem + extension
    requires stem != [] && stem[0] != '.' && '/' !in stem
    requires IsExtension(extension)
    ensures SplitExt(name) == (stem, extension)
  {
    forall i | 0 <= i < |stem| ensures stem[i] != '/' {
      assert stem[i] in stem;
    }
    LastIndexIs(stem, '/', -1);
    assert Basename(stem) == stem;
    SplitExtAppend(stem, extension);
  }

  /** Basename undoes Join for a name without separators. */
  lemma BasenameOfJoin(a: string, b: string)
    requires '/' !in b
    ensures Basename(Join(a, b)) == b
  {
    var p := Join(a, b);
    assert |b| > 0 ==> b[0] != '/' by {
      if |b| > 0 { assert b[0] in b; }
    }
    if a == [] || a[|a| - 1] == '/' {
      assert forall i :: |a| <= i < |p| ==> p[i] == b[i - |a|];
      LastIndexIs(p, '/', LastIndex(a, '/'));
      if a != [] {
        LastIndexIs(p, '/', |a| - 1);
      }
    } else {
      assert forall i :: |a| + 1 <= i < |p| ==> p[i] == b[i - |a| - 1];
      LastIndexIs(p, '/', |a|);
    }
  }

  /** Joining onto a fixed directory never maps two relative names to one path. */
  lemma JoinInjective(a: string, b1: string, b2: string)
    requires |b1| > 0 ==> b1[0] != '/'
    requires |b2| > 0 ==> b2[0] != '/'
    requires Join(a, b1) == Join(a, b2)
    ensures b1 == b2
  {
    var prefix := if a == [] || a[|a| - 1] == '/' then a else a + "/";
    assert Join(a, b1) == prefix + b1 && Join(a, b2) == prefix + b2;
    assert (prefix + b1)[|prefix|..] == b1;
    assert (prefix + b2)[|prefix|..] == b2;
  }
}
