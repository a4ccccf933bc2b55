/**
 * The string operations that the slug pipeline is built from: Go's
 * strings.ToLower, the three regexp replacements and strings.Trim, each as its
 * own recursive function over a sequence of runes, together with the facts
 * about each step that the slug properties are assembled from.
 */
module Text {

  import opened Wrappers

  /** Characters the first regexp `[^a-z0-9 -]` keeps. */
  predicate IsAllowed(c: char) {
    ('a' <= c <= 'z') || ('0' <= c <= '9') || c == ' ' || c == '-'
  }

  /** Letters and digits of a slug: `[a-z0-9]`. */
  predicate IsAlnum(c: char) {
    ('a' <= c <= 'z') || ('0' <= c <= '9')
  }

  /** The alphabet of a finished slug: `[a-z0-9-]`. */
  predicate IsSlugChar(c: char) {
    IsAlnum(c) || c == '-'
  }

  /** The cutset " -" given to strings.Trim. */
  predicate InCutset(c: char) {
    c == ' ' || c == '-'
  }

  /**
   * unicode.ToLower on one rune, as far as the slug can observe it: ASCII
   * upper case, and the only two non-ASCII runes whose lower case is ASCII
   * (LATIN CAPITAL LETTER I WITH DOT ABOVE and KELVIN SIGN). Any other rune is
   * left as it is: its lower case is not ASCII either, and the next step of
   * the pipeline deletes it.
   */
  function LowerChar(c: char): (d: char)
    ensures IsAlnum(d) <==> IsAlnum(c) || ('A' <= c <= 'Z') || c == '\U{0130}' || c == '\U{212A}'
    ensures d == ' ' <==> c == ' '
    ensures d == '-' <==> c == '-'
  {
    if 'A' <= c <= 'Z' then (c as int + 32) as char
    else if c == '\U{0130}' then 'i'
    else if c == '\U{212A}' then 'k'
    else c
  }

  /** strings.ToLower: rune by rune. */
  function ToLower(s: string): (r: string)
    ensures |r| == |s|
    ensures forall i :: 0 <= i < |s| ==> r[i] == LowerChar(s[i])
  {
    seq(|s|, i requires 0 <= i < |s| => LowerChar(s[i]))
  }

  /** The replacement of `[^a-z0-9 -]` by "": every other rune is deleted. */
  function KeepAllowed(s: string): (r: string)
    ensures |r| <= |s|
    ensures forall c :: c in r ==> IsAllowed(c)
  {
    if |s| == 0 then []
    else if IsAllowed(s[0]) then [s[0]] + KeepAllowed(s[1..])
    else KeepAllowed(s[1..])
  }

  /**
   * Scans `s` replacing each maximal run of `c` by the single rune `r` and
   * copying every other rune; `inRun` says that the rune just before `s` was
   * a `c` whose run has already been replaced.
   */
  function ReplaceRunsFrom(s: string, c: char, r: char, inRun: bool): (t: string)
    ensures |t| <= |s|
  {
    if |s| == 0 then []
    else if s[0] != c then [s[0]] + ReplaceRunsFrom(s[1..], c, r, false)
    else if inRun then ReplaceRunsFrom(s[1..], c, r, true)
    else [r] + ReplaceRunsFrom(s[1..], c, r, true)
  }

  /**
   * The replacement of the regexp `c+` by `r`: each maximal run of `c`
   * becomes one `r`, every other rune is copied. With c = ' ' and r = '-'
   * this is the step " +" -> "-"; with c = r = '-' it is "-+" -> "-".
   */
  function ReplaceRuns(s: string, c: char, r: char): (t: string)
    ensures |t| <= |s|
  {
    ReplaceRunsFrom(s, c, r, false)
  }

  /** strings.TrimLeft with the cutset " -". */
  function TrimLeft(s: string): (r: string)
    ensures |r| <= |s|
    ensures r == s[|s| - |r|..]
    ensures r == [] || !InCutset(r[0])
    ensures forall i :: 0 <= i < |s| - |r| ==> InCutset(s[i])
  {
    if s != [] && InCutset(s[0]) then TrimLeft(s[1..]) else s
  }

  /** strings.TrimRight with the cutset " -". */
  function TrimRight(s: string): (r: string)
    ensures |r| <= |s|
    ensures r == s[..|r|]
    ensures r == [] || !InCutset(r[|r| - 1])
    ensures forall i :: |r| <= i < |s| ==> InCutset(s[i])
  {
    if s != [] && InCutset(s[|s| - 1]) then TrimRight(s[..|s| - 1]) else s
  }

  /** strings.Trim(s, " -"). */
  function Trim(s: string): (r: string)
    ensures |r| <= |s|
    ensures r == [] || (!InCutset(r[0]) && !InCutset(r[|r| - 1]))
  {
    TrimRight(TrimLeft(s))
  }

  /** No two adjacent occurrences of `c`. */
  predicate NoDoubled(s: string, c: char) {
    forall i :: 0 <= i < |s| - 1 ==> !(s[i] == c && s[i + 1] == c)
  }

  /** The letters and digits of `s`, in order. */
  function AlnumOf(s: string): (r: string)
    ensures forall c :: c in r ==> IsAlnum(c)
  {
    if s == [] then []
    else if IsAlnum(s[0]) then [s[0]] + AlnumOf(s[1..])
    else AlnumOf(s[1..])
  }

  /** `s` with every '-' removed. */
  function Unhyphen(s: string): (r: string)
    ensures '-' !in r
  {
    if s == [] then []
    else if s[0] == '-' then Unhyphen(s[1..])
    else [s[0]] + Unhyphen(s[1..])
  }

  // ---------------------------------------------------------------------------
  // Facts about the individual steps

  lemma {:induction false} AlnumOfConcat(a: string, b: string)
    ensures AlnumOf(a + b) == AlnumOf(a) + AlnumOf(b)
  {
    if a != [] {
      assert (a + b)[1..] == a[1..] + b;
      AlnumOfConcat(a[1..], b);
    } else {
      assert a + b == b;
    }
  }

  // The steps distribute over concatenation; worked examples are computed
  // piece by piece with these.

  lemma ToLowerConcat(a: string, b: string)
    ensures ToLower(a + b) == ToLower(a) + ToLower(b)
  {
  }

  lemma {:induction false} KeepAllowedConcat(a: string, b: string)
    ensures KeepAllowed(a + b) == KeepAllowed(a) + KeepAllowed(b)
  {
    if a == [] {
      assert a + b == b;
    } else {
      assert (a + b)[1..] == a[1..] + b;
      KeepAllowedConcat(a[1..], b);
    }
  }

  lemma {:induction false} ReplaceRunsConcat(a: string, b: string, c: char, r: char, inRun: bool)
    ensures ReplaceRunsFrom(a + b, c, r, inRun)
         == ReplaceRunsFrom(a, c, r, inRun) + ReplaceRunsFrom(b, c, r, if a == [] then inRun else a[|a| - 1] == c)
  {
    if a == [] {
      assert a + b == b;
    } else {
      assert (a + b)[1..] == a[1..] + b;
      ReplaceRunsConcat(a[1..], b, c, r, a[0] == c);
    }
  }

  /** Deleting runes outside `[a-z0-9 -]` deletes no letter or digit. */
  lemma {:induction false} KeepAllowedAlnum(s: string)
    ensures AlnumOf(KeepAllowed(s)) == AlnumOf(s)
  {
    if s != [] {
      KeepAllowedAlnum(s[1..]);
    }
  }

  /** Replacing runs of one separator by another keeps the letters and digits. */
  lemma {:induction false} ReplaceRunsAlnum(s: string, c: char, r: char, inRun: bool)
    requires !IsAlnum(c) && !IsAlnum(r)
    ensures AlnumOf(ReplaceRunsFrom(s, c, r, inRun)) == AlnumOf(s)
  {
    if s != [] {
      ReplaceRunsAlnum(s[1..], c, r, s[0] == c);
    }
  }

  /** Every rune of the result is `r` or a rune of `s` other than `c`. */
  lemma {:induction false} ReplaceRunsChars(s: string, c: char, r: char, inRun: bool)
    ensures forall x :: x in ReplaceRunsFrom(s, c, r, inRun) ==> x == r || (x in s && x != c)
  {
    if s != [] {
      ReplaceRunsChars(s[1..], c, r, s[0] == c);
      assert forall x :: x in s[1..] ==> x in s;
    }
  }

  /**
   * Collapsing the runs of `c` into `c` leaves no doubled `c`; inside a run
   * the result does not start with another `c`.
   */
  lemma {:induction false} ReplaceRunsNoDoubled(s: string, c: char, inRun: bool)
    ensures NoDoubled(ReplaceRunsFrom(s, c, c, inRun), c)
    ensures inRun && ReplaceRunsFrom(s, c, c, inRun) != [] ==> ReplaceRunsFrom(s, c, c, inRun)[0] != c
  {
    if s != [] {
      ReplaceRunsNoDoubled(s[1..], c, s[0] == c);
    }
  }

  /** A string with no doubled `c` is left alone by collapsing the runs of `c`. */
  lemma {:induction false} ReplaceRunsFixed(s: string, c: char, inRun: bool)
    requires NoDoubled(s, c)
    requires inRun ==> s == [] || s[0] != c
    ensures ReplaceRunsFrom(s, c, c, inRun) == s
  {
    if s != [] {
      ReplaceRunsFixed(s[1..], c, s[0] == c);
    }
  }

  /** Without any `c` there is nothing to replace. */
  lemma {:induction false} ReplaceRunsAbsent(s: string, c: char, r: char, inRun: bool)
    requires c !in s
    ensures ReplaceRunsFrom(s, c, r, inRun) == s
  {
    if s != [] {
      ReplaceRunsAbsent(s[1..], c, r, false);
    }
  }

  /** A string of allowed runes passes the deletion step unchanged. */
  lemma {:induction false} KeepAllowedFixed(s: string)
    requires forall c :: c in s ==> IsAllowed(c)
    ensures KeepAllowed(s) == s
  {
    if s != [] {
      KeepAllowedFixed(s[1..]);
    }
  }

  /** Trimming deletes no letter or digit. */
  lemma TrimAlnum(s: string)
    ensures AlnumOf(Trim(s)) == AlnumOf(s)
  {
    TrimLeftAlnum(s);
    TrimRightAlnum(TrimLeft(s));
  }

  lemma {:induction false} TrimLeftAlnum(s: string)
    ensures AlnumOf(TrimLeft(s)) == AlnumOf(s)
  {
    if s != [] && InCutset(s[0]) {
      TrimLeftAlnum(s[1..]);
    }
  }

  lemma {:induction false} TrimRightAlnum(s: string)
    ensures AlnumOf(TrimRight(s)) == AlnumOf(s)
  {
    if s != [] && InCutset(s[|s| - 1]) {
      var p := s[..|s| - 1];
      TrimRightAlnum(p);
      assert s == p + [s[|s| - 1]];
      AlnumOfConcat(p, [s[|s| - 1]]);
    }
  }

  /** Trimming cuts out a contiguous piece: no new rune, no new neighbours. */
  lemma TrimKeeps(s: string, c: char)
    ensures forall x :: x in Trim(s) ==> x in s
    ensures NoDoubled(s, c) ==> NoDoubled(Trim(s), c)
  {
    TrimKeepsRunes(s);
    if NoDoubled(s, c) {
      TrimKeepsNoDoubled(s, c);
    }
  }

  lemma TrimKeepsRunes(s: string)
    ensures forall x :: x in Trim(s) ==> x in s
  {
    var k := |s| - |TrimLeft(s)|;
    var t := Trim(s);
    TrimIsSlice(s);
    forall x | x in t ensures x in s {
      var i :| 0 <= i < |t| && t[i] == x;
      assert s[k + i] == x;
    }
  }

  lemma TrimKeepsNoDoubled(s: string, c: char)
    requires NoDoubled(s, c)
    ensures NoDoubled(Trim(s), c)
  {
    var k := |s| - |TrimLeft(s)|;
    var t := Trim(s);
    TrimIsSlice(s);
    forall i | 0 <= i < |t| - 1 ensures !(t[i] == c && t[i + 1] == c) {
      assert t[i] == s[k + i] && t[i + 1] == s[k + i + 1];
    }
  }

  /** The trimmed text is the slice of `s` left after the cut-off prefix. */
  lemma TrimIsSlice(s: string)
    ensures |s| - |TrimLeft(s)| + |Trim(s)| <= |s|
    ensures forall i :: 0 <= i < |Trim(s)| ==> Trim(s)[i] == s[|s| - |TrimLeft(s)| + i]
  {
    var l := TrimLeft(s);
    var k := |s| - |l|;
    assert l == s[k..];
    var t := TrimRight(l);
    assert t == l[..|t|];
  }

  /** Over the slug alphabet, removing hyphens is keeping letters and digits. */
  lemma {:induction false} UnhyphenAlnum(s: string)
    requires forall c :: c in s ==> IsSlugChar(c)
    ensures Unhyphen(s) == AlnumOf(s)
  {
    if s != [] {
      assert s[0] in s;
      UnhyphenAlnum(s[1..]);
    }
  }

  // ---------------------------------------------------------------------------
  // The "Title (Slug)" form and its inverse

  /** The index of the last `c` in `s`, if any. */
  function LastIndex(s: string, c: char): (r: Option<nat>)
    ensures r.None? ==> c !in s
    ensures r.Some? ==> r.value < |s| && s[r.value] == c && c !in s[r.value + 1..]
  {
    if s == [] then None
    else if s[|s| - 1] == c then Some(|s| - 1)
    else
      var r := LastIndex(s[..|s| - 1], c);
      assert s == s[..|s| - 1] + [s[|s| - 1]];
      r
  }

  /** The layout "%s (%s)" of the String methods. */
  function Labelled(title: string, slug: string): (r: string)
    ensures |r| == |title| + |slug| + 3
    ensures r[..|title|] == title && r[|r| - 1] == ')'
  {
    title + " (" + slug + ")"
  }

  /**
   * Reads a "%s (%s)" line back: the second part is what stands between the
   * last '(' and the closing ')'.
   */
  function SplitLabel(s: string): (r: Option<(string, string)>)
    ensures r.Some? ==> Labelled(r.value.0, r.value.1) == s
  {
    if s == [] || s[|s| - 1] != ')' then None
    else match LastIndex(s[..|s| - 1], '(')
      case None => None
      case Some(p) =>
        if p == 0 || s[p - 1] != ' ' then None
        else
          var title, slug := s[..p - 1], s[p + 1..|s| - 1];
          assert s == title + " (" + slug + ")";
          Some((title, slug))
  }

  /** A slug without '(' is recovered exactly, and so is the title. */
  lemma SplitLabelled(title: string, slug: string)
    requires '(' !in slug
    ensures SplitLabel(Labelled(title, slug)) == Some((title, slug))
  {
    var s := Labelled(title, slug);
    var body := s[..|s| - 1];
    assert body == title + " (" + slug;
    var p := |title| + 1;
    assert body[p] == '(' && body[p + 1..] == slug;
  }
}
