/**
 * `sanitize_filename`: split off the extension, lower-case the base, turn every
 * character outside [a-z0-9_-] into '-', collapse runs of '-', strip '-' from both
 * ends, and put the extension back unchanged.
 */
module Sanitizer {
  import opened Paths
  import Sequences

  /** A character that survives sanitizing and is not the dash: [a-z0-9_]. */
  predicate IsWordChar(c: char) {
    'a' <= c <= 'z' || '0' <= c <= '9' || c == '_'
  }

  /** The character class [a-z0-9-_] of the first substitution. */
  predicate IsAllowed(c: char) {
    IsWordChar(c) || c == '-'
  }

  /** ASCII `str.lower()` of one character. */
  function LowerChar(c: char): char {
    if 'A' <= c <= 'Z' then (c as int + 32) as char else c
  }

  function Lower(s: string): string {
    seq(|s|, i requires 0 <= i < |s| => LowerChar(s[i]))
  }

  /** `re.sub(r'[^a-z0-9-_]', '-', s)`. */
  function ReplaceDisallowed(s: string): string {
    seq(|s|, i requires 0 <= i < |s| => if IsAllowed(s[i]) then s[i] else '-')
  }

  predicate AllAllowed(s: string) {
    forall i :: 0 <= i < |s| ==> IsAllowed(s[i])
  }

  predicate NoDoubleDash(s: string) {
    forall i :: 0 <= i < |s| - 1 ==> !(s[i] == '-' && s[i + 1] == '-')
  }

  /** `re.sub(r'-+', '-', s)`: every run of dashes becomes one dash. */
  function CollapseDashes(s: string): (r: string)
    ensures |r| <= |s|
    ensures s != [] ==> r != [] && r[0] == s[0]
    ensures AllAllowed(s) ==> AllAllowed(r)
    ensures NoDoubleDash(r)
  {
    if |s| < 2 then s
    else if s[0] == '-' && s[1] == '-' then CollapseDashes(s[1..])
    else [s[0]] + CollapseDashes(s[1..])
  }

  /** The characters of `s` other than '-', in order. */
  function DropDashes(s: string): string {
    if s == [] then [] else (if s[0] == '-' then [] else [s[0]]) + DropDashes(s[1..])
  }

  /** Collapsing removes dashes only: every other character survives, in order. */
  lemma {:induction false} CollapseKeepsWords(s: string)
    ensures DropDashes(CollapseDashes(s)) == DropDashes(s)
  {
    if |s| >= 2 {
      CollapseKeepsWords(s[1..]);
      if !(s[0] == '-' && s[1] == '-') {
        var t := CollapseDashes(s[1..]);
        assert ([s[0]] + t)[0] == s[0] && ([s[0]] + t)[1..] == t;
      }
    }
  }

  /** `s.lstrip('-')`: only dashes are removed, and the rest is a suffix of `s`. */
  function StripLeading(s: string): (r: string)
    ensures |r| <= |s| && r == s[|s| - |r|..]
    ensures r == [] || r[0] != '-'
    ensures forall i :: 0 <= i < |s| - |r| ==> s[i] == '-'
  {
    if s != [] && s[0] == '-' then StripLeading(s[1..]) else s
  }

  /** `s.rstrip('-')`: only dashes are removed, and the rest is a prefix of `s`. */
  function StripTrailing(s: string): (r: string)
    ensures |r| <= |s| && r == s[..|r|]
    ensures r == [] || r[|r| - 1] != '-'
    ensures forall i :: |r| <= i < |s| ==> s[i] == '-'
  {
    if s != [] && s[|s| - 1] == '-' then StripTrailing(s[..|s| - 1]) else s
  }

  /** `s.strip('-')`. */
  function StripDashes(s: string): string {
    StripLeading(StripTrailing(s))
  }

  /** Lines 17-23: what becomes of the part before the extension. */
  function CleanBase(base: string): string {
    StripDashes(CollapseDashes(ReplaceDisallowed(Lower(base))))
  }

  function SanitizeFilename(filename: string): string {
    var split := SplitExt(filename);
    CleanBase(split.0) + split.1
  }

  /** Sanitizing a name whose split is known. */
  lemma SanitizeSplit(filename: string, base: string, extension: string)
    requires SplitExt(filename) == (base, extension)
    ensures SanitizeFilename(filename) == CleanBase(base) + extension
  {
  }

  /** The invariant of a sanitized base. */
  predicate IsClean(s: string) {
    && AllAllowed(s)
    && NoDoubleDash(s)
    && (s != [] ==> s[0] != '-' && s[|s| - 1] != '-')
  }

  // ---------------------------------------------------------------------------
  // The sanitized base is clean, and the extension survives unchanged.
  // ---------------------------------------------------------------------------

  lemma CleanBaseIsClean(base: string)
    ensures IsClean(CleanBase(base))
  {
    var collapsed := CollapseDashes(ReplaceDisallowed(Lower(base)));
    var trailing := StripTrailing(collapsed);
    SliceKeepsShape(collapsed, 0, |trailing|);
    SliceKeepsShape(trailing, |trailing| - |StripLeading(trailing)|, |trailing|);
  }

  /** A slice of a dash-collapsed string of allowed characters is one too. */
  lemma SliceKeepsShape(s: string, lo: int, hi: int)
    requires 0 <= lo <= hi <= |s|
    requires AllAllowed(s) && NoDoubleDash(s)
    ensures AllAllowed(s[lo..hi]) && NoDoubleDash(s[lo..hi])
  {
    var t := s[lo..hi];
    assert forall i :: 0 <= i < |t| ==> t[i] == s[lo + i];
  }

  /**
   * A sanitized name is a clean base followed by the input's own extension, which
   * keeps its letter case and is empty or a single dot-led suffix.
   */
  lemma SanitizeFilenameShape(filename: string)
    ensures exists base :: IsClean(base) && SanitizeFilename(filename) == base + SplitExt(filename).1
    ensures SplitExt(filename).1 == [] || IsExtension(SplitExt(filename).1)
    ensures SplitExt(filename).1 == filename[|filename| - |SplitExt(filename).1|..]
  {
    var (base, extension) := SplitExt(filename);
    CleanBaseIsClean(base);
    assert filename == base + extension;
    assert filename[|base|..] == extension;
  }

  /** Nothing in a sanitized name can be read as a directory separator. */
  lemma SanitizedHasNoSeparator(filename: string)
    ensures '/' !in SanitizeFilename(filename)
  {
    var split := SplitExt(filename);
    var clean := CleanBase(split.0);
    CleanBaseHasNoSeparator(split.0);
    assert '/' !in split.1;
    assert SanitizeFilename(filename) == clean + split.1;
    Sequences.InConcat(clean, split.1, '/');
  }

  lemma CleanBaseHasNoSeparator(base: string)
    ensures '/' !in CleanBase(base)
  {
    var clean := CleanBase(base);
    CleanBaseIsClean(base);
    forall i | 0 <= i < |clean| ensures clean[i] != '/' {
      assert IsAllowed(clean[i]);
    }
  }

  /** The sanitized base is empty exactly when the base holds no character that lower-cases into [a-z0-9_]. */
  lemma CleanBaseEmptyIff(base: string)
    ensures CleanBase(base) == [] <==> forall i :: 0 <= i < |base| ==> !IsWordChar(LowerChar(base[i]))
  {
    var replaced := ReplaceDisallowed(Lower(base));
    CleanBaseIsOnePass(base);
    SqueezeEmptyIff(replaced, Start);
    assert forall i :: 0 <= i < |base| ==> (replaced[i] != '-' <==> IsWordChar(LowerChar(base[i])));
  }

  // ---------------------------------------------------------------------------
  // An independent reference: one left-to-right pass that emits each word of
  // [a-z0-9_] characters and a single dash between two words.
  // ---------------------------------------------------------------------------

  /** Where the pass stands: before the first word, inside a word, or in a gap after one. */
  datatype Mode = Start | InWord | Gap

  function Squeeze(s: string, mode: Mode): string {
    if s == [] then []
    else if s[0] == '-' then Squeeze(s[1..], if mode == Start then Start else Gap)
    else (if mode == Gap then "-" else "") + [s[0]] + Squeeze(s[1..], InWord)
  }

  lemma {:induction false} SqueezeEmptyIff(s: string, mode: Mode)
    requires mode != Gap
    ensures Squeeze(s, mode) == [] <==> forall i :: 0 <= i < |s| ==> s[i] == '-'
  {
    if s != [] && s[0] == '-' {
      SqueezeEmptyIff(s[1..], Start);
      SqueezeGapEmptyIff(s[1..]);
      assert forall i :: 1 <= i < |s| ==> s[i] == s[1..][i - 1];
    }
  }

  lemma {:induction false} SqueezeGapEmptyIff(s: string)
    ensures Squeeze(s, Gap) == [] <==> forall i :: 0 <= i < |s| ==> s[i] == '-'
  {
    if s != [] && s[0] == '-' {
      SqueezeGapEmptyIff(s[1..]);
      assert forall i :: 1 <= i < |s| ==> s[i] == s[1..][i - 1];
    }
  }

  /** Removing trailing dashes from `x + t` keeps `x` whole when `t` is not all dashes. */
  lemma {:induction false} StripTrailingConcat(x: string, t: string)
    ensures StripTrailing(x + t) == if StripTrailing(t) == [] then StripTrailing(x) else x + StripTrailing(t)
    decreases |t|
  {
    if t == [] {
      assert x + t == x;
    } else if t[|t| - 1] == '-' {
      assert (x + t)[..|x + t| - 1] == x + t[..|t| - 1];
      StripTrailingConcat(x, t[..|t| - 1]);
    } else {
      assert StripTrailing(t) == t;
    }
  }

  lemma CollapseAfterDash(s: string)
    ensures CollapseDashes("-" + s) == if s != [] && s[0] == '-' then CollapseDashes(s) else "-" + CollapseDashes(s)
  {
    assert ("-" + s)[1..] == s;
  }

  lemma CollapseAfterWordChar(c: char, s: string)
    requires c != '-'
    ensures CollapseDashes([c] + s) == [c] + CollapseDashes(s)
  {
    assert ([c] + s)[1..] == s;
  }

  /** Trailing dashes of `t` are all that is stripped when `p` ends in another character. */
  lemma StripTrailingAfterWord(p: string, t: string)
    requires p != [] && p[|p| - 1] != '-'
    ensures StripTrailing(p + t) == p + StripTrailing(t)
  {
    StripTrailingConcat(p, t);
    assert StripTrailing(p) == p;
    assert p + [] == p;
  }

  /** Inside a word the pass agrees with collapsing and stripping the trailing dashes. */
  lemma {:induction false} SqueezeInWord(s: string)
    ensures Squeeze(s, InWord) == StripTrailing(CollapseDashes(s))
    decreases |s|, 1
  {
    if s == [] {
    } else if s[0] == '-' {
      var t := s[1..];
      assert "-" + t == s;
      assert Squeeze(s, InWord) == Squeeze(t, Gap);
      SqueezeGap(t);
    } else {
      var t := s[1..];
      assert [s[0]] + t == s;
      assert Squeeze(s, InWord) == [s[0]] + Squeeze(t, InWord);
      SqueezeInWord(t);
      CollapseAfterWordChar(s[0], t);
      StripTrailingAfterWord([s[0]], CollapseDashes(t));
    }
  }

  /** In a gap the pass agrees with the same on a dash followed by `s`. */
  lemma {:induction false} SqueezeGap(s: string)
    ensures Squeeze(s, Gap) == StripTrailing(CollapseDashes("-" + s))
    decreases |s|, 1
  {
    if s == [] {
      assert "-" + s == "-";
      assert StripTrailing("-") == [];
    } else if s[0] == '-' {
      SqueezeGapDash(s);
    } else {
      SqueezeGapWord(s);
    }
  }

  lemma {:induction false} SqueezeGapDash(s: string)
    requires s != [] && s[0] == '-'
    ensures Squeeze(s, Gap) == StripTrailing(CollapseDashes("-" + s))
    decreases |s|, 0
  {
    var t := s[1..];
    assert "-" + t == s;
    assert Squeeze(s, Gap) == Squeeze(t, Gap);
    SqueezeGap(t);
    CollapseAfterDash(s);
  }

  lemma {:induction false} SqueezeGapWord(s: string)
    requires s != [] && s[0] != '-'
    ensures Squeeze(s, Gap) == StripTrailing(CollapseDashes("-" + s))
    decreases |s|, 0
  {
    var t := s[1..];
    var w := "-" + [s[0]];
    var ct := CollapseDashes(t);
    assert Squeeze(s, Gap) == w + Squeeze(t, InWord);
    assert CollapseDashes("-" + s) == w + ct by {
      CollapseAfterDash(s);
      assert [s[0]] + t == s;
      CollapseAfterWordChar(s[0], t);
      assert "-" + ([s[0]] + ct) == w + ct;
    }
    SqueezeInWord(t);
    StripTrailingAfterWord(w, ct);
  }

  /** Before the first word the pass agrees with collapsing and stripping both ends. */
  lemma {:induction false} SqueezeStart(s: string)
    ensures Squeeze(s, Start) == StripDashes(CollapseDashes(s))
    decreases |s|
  {
    if s == [] {
    } else if s[0] == '-' {
      var rest := s[1..];
      assert "-" + rest == s;
      assert Squeeze(s, Start) == Squeeze(rest, Start);
      SqueezeStart(rest);
      CollapseAfterDash(rest);
      if !(rest != [] && rest[0] == '-') {
        StripLeadingDash(CollapseDashes(rest));
      }
    } else {
      SqueezeInWord(s[1..]);
      CollapseAfterWordChar(s[0], s[1..]);
      assert [s[0]] + s[1..] == s;
      StripTrailingConcat([s[0]], CollapseDashes(s[1..]));
    }
  }

  /** One more leading dash is stripped away with the others. */
  lemma StripLeadingDash(t: string)
    ensures StripDashes("-" + t) == StripDashes(t)
  {
    StripTrailingConcat("-", t);
    assert StripTrailing("-") == [];
    var u := StripTrailing(t);
    if u != [] {
      assert ("-" + u)[1..] == u;
    }
  }

  /** The three-pass cleanup of lines 19-23 equals the one-pass reference. */
  lemma CleanBaseIsOnePass(base: string)
    ensures CleanBase(base) == Squeeze(ReplaceDisallowed(Lower(base)), Start)
  {
    SqueezeStart(ReplaceDisallowed(Lower(base)));
  }

  // ---------------------------------------------------------------------------
  // Idempotence, which holds only when the sanitized base survives.
  // ---------------------------------------------------------------------------

  lemma {:induction false} CollapseKeepsNoDoubleDash(s: string)
    requires NoDoubleDash(s)
    ensures CollapseDashes(s) == s
  {
    if |s| >= 2 {
      CollapseKeepsNoDoubleDash(s[1..]);
      assert [s[0]] + s[1..] == s;
    }
  }

  /** A clean base is left exactly as it is. */
  lemma CleanBaseFixesClean(s: string)
    requires IsClean(s)
    ensures CleanBase(s) == s
  {
    assert Lower(s) == s;
    assert ReplaceDisallowed(s) == s;
    CollapseKeepsNoDoubleDash(s);
  }

  /** A non-empty clean base followed by an extension splits back into the two. */
  lemma SplitCleanName(clean: string, extension: string)
    requires IsClean(clean) && clean != []
    requires extension == [] || IsExtension(extension)
    ensures SplitExt(clean + extension) == (clean, extension)
  {
    assert forall i :: 0 <= i < |clean| ==> IsAllowed(clean[i]);
    LastIndexIs(clean, '/', -1);
    assert HasStem(clean) by {
      assert Basename(clean) == clean;
      assert clean[0] != '.';
    }
    if extension == [] {
      assert clean + extension == clean;
      LastIndexIs(clean, '.', -1);
    } else {
      SplitExtAppend(clean, extension);
    }
  }

  /**
   * Sanitizing a sanitized name changes it again exactly when the base vanished
   * and an extension is left over (which then loses its dot).
   */
  lemma SanitizeIdempotentIff(filename: string)
    ensures SanitizeFilename(SanitizeFilename(filename)) == SanitizeFilename(filename)
        <==> CleanBase(SplitExt(filename).0) != [] || SplitExt(filename).1 == []
  {
    var split := SplitExt(filename);
    var once := SanitizeFilename(filename);
    SanitizeSplit(filename, split.0, split.1);
    if CleanBase(split.0) != [] {
      IdempotentOnSurvivingBase(split.0, split.1);
      assert SanitizeFilename(once) == once;
    } else if split.1 != [] {
      assert once == split.1;
      LoseDot(split.1);
      assert SanitizeFilename(once) != once;
    } else {
      assert once == [];
      SanitizeEmpty();
      assert SanitizeFilename(once) == once;
    }
  }

  lemma SanitizeEmpty()
    ensures SanitizeFilename([]) == []
  {
    assert SplitExt([]) == ([], []);
  }

  /** A sanitized name whose base survived is left alone by a second pass. */
  lemma IdempotentOnSurvivingBase(base: string, extension: string)
    requires CleanBase(base) != []
    requires extension == [] || IsExtension(extension)
    ensures SanitizeFilename(CleanBase(base) + extension) == CleanBase(base) + extension
  {
    var clean := CleanBase(base);
    CleanBaseIsClean(base);
    SplitCleanName(clean, extension);
    SanitizeSplit(clean + extension, clean, extension);
    CleanBaseFixesClean(clean);
  }

  /** A bare extension is not split: its only dot opens the name. */
  lemma BareExtensionUnsplit(extension: string)
    requires IsExtension(extension)
    ensures SplitExt(extension) == (extension, [])
  {
    forall i | 0 <= i < |extension| ensures extension[i] != '/' {
      assert extension[i] in extension;
    }
    LastIndexIs(extension, '/', -1);
    LastIndexIs(extension, '.', 0);
    assert OnlyDots(extension[0..0]);
  }

  lemma CleanBaseNotExtension(extension: string)
    requires IsExtension(extension)
    ensures CleanBase(extension) != extension
  {
    var clean := CleanBase(extension);
    CleanBaseIsClean(extension);
    assert clean != extension by {
      if clean != [] {
        assert IsAllowed(clean[0]);
      }
    }
  }

  /** Sanitizing a bare extension drops its dot. */
  lemma LoseDot(extension: string)
    requires IsExtension(extension)
    ensures SanitizeFilename(extension) != extension
  {
    BareExtensionUnsplit(extension);
    CleanBaseNotExtension(extension);
    SanitizeSplit(extension, extension, []);
    assert CleanBase(extension) + [] == CleanBase(extension);
  }

  /** The two sanitizing steps the idempotence fails on: "!!!.txt" to ".txt" to "txt". */
  lemma IdempotenceCounterexample()
    ensures SanitizeFilename("!!!.txt") == ".txt"
    ensures SanitizeFilename(".txt") == "txt"
  {
    VanishingBase();
    BareExtension();
  }

  lemma VanishingBase()
    ensures SanitizeFilename("!!!.txt") == ".txt"
  {
    LastIndexIs("!!!.txt", '/', -1);
    LastIndexIs("!!!.txt", '.', 3);
    assert !OnlyDots("!!!") by { assert "!!!"[0] != '.'; }
    assert "!!!.txt"[0..3] == "!!!" == "!!!.txt"[..3];
    assert "!!!.txt"[3..] == ".txt";
    assert Lower("!!!") == "!!!";
    assert ReplaceDisallowed("!!!") == "---";
    assert CollapseDashes("---") == "-";
    assert StripDashes("-") == [];
  }

  lemma BareExtension()
    ensures SanitizeFilename(".txt") == "txt"
  {
    BareExtensionUnsplit(".txt");
    SanitizeSplit(".txt", ".txt", []);
    DotTxt();
    assert "txt" + [] == "txt";
  }

  lemma DotTxt()
    ensures CleanBase(".txt") == "txt"
  {
    assert Lower(".txt") == ".txt";
    assert ReplaceDisallowed(".txt") == "-txt";
    assert CollapseDashes("-txt") == "-txt";
    assert StripTrailing("-txt") == "-txt";
    assert "-txt"[1..] == "txt";
    assert StripLeading("txt") == "txt";
  }
}
