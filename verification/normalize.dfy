/**
 The answer normaliser `limpia` (cmds.js) and the answer comparison built on it. `limpia` runs
 its passes in order: remove every white-space run, lower-case, then replace each accented
 vowel (matched case-insensitively) by its plain vowel. Its properties are proved through a
 reference definition, `Canon`, that treats one character at a time.
 */
module Normalize {
  import opened Text

  /** The ten accented vowels that `limpia` rewrites. */
  predicate IsAccented(c: char)
  {
    c in "áéíóúÁÉÍÓÚ"
  }

  /** A character that survives `limpia` unchanged. */
  predicate IsClean(c: char)
  {
    !IsSpace(c) && !IsUpper(c) && !IsAccented(c)
  }

  predicate Clean(s: string)
  {
    forall i :: 0 <= i < |s| ==> IsClean(s[i])
  }

  /** `replace(/\s+/g, '')`: remove every white-space character. */
  function StripSpace(s: string): (r: string)
    ensures NoSpace(r)
    ensures |r| <= |s|
  {
    if s == [] then []
    else if IsSpace(s[0]) then StripSpace(s[1..])
    else [s[0]] + StripSpace(s[1..])
  }

  /** `toLowerCase()` over the modelled alphabet. */
  function ToLower(s: string): (r: string)
    ensures |r| == |s|
  {
    if s == [] then [] else [LowerChar(s[0])] + ToLower(s[1..])
  }

  /** `replace(/<accented>/gi, plain)` on one character: both cases of the vowel become `plain`. */
  function ReplaceVowelChar(c: char, accented: char, upper: char, plain: char): char
  {
    if c == accented || c == upper then plain else c
  }

  /** `replace(/<accented>/gi, plain)`. */
  function ReplaceVowel(s: string, accented: char, upper: char, plain: char): (r: string)
    ensures |r| == |s|
  {
    if s == [] then []
    else [ReplaceVowelChar(s[0], accented, upper, plain)] + ReplaceVowel(s[1..], accented, upper, plain)
  }

  /** The five vowel passes of `limpia`, in source order. */
  function Deaccent(t: string): (r: string)
    ensures |r| == |t|
  {
    var a := ReplaceVowel(t, 'á', 'Á', 'a');
    var e := ReplaceVowel(a, 'é', 'É', 'e');
    var i := ReplaceVowel(e, 'í', 'Í', 'i');
    var o := ReplaceVowel(i, 'ó', 'Ó', 'o');
    ReplaceVowel(o, 'ú', 'Ú', 'u')
  }

  /** `limpia`: the canonical form two answers are compared in. */
  function Limpia(s: string): string
  {
    Deaccent(ToLower(StripSpace(s)))
  }

  /** Two answers are accepted as equal iff their `limpia` forms are identical. */
  predicate Matches(given: string, expected: string)
  {
    Limpia(given) == Limpia(expected)
  }

  // ---------------------------------------------------------------------------------------
  // Reference definition, one character at a time

  /** What the five vowel passes do to one character. */
  function FoldVowel(c: char): (r: char)
    ensures !IsAccented(r)
    ensures !IsAccented(c) ==> r == c
  {
    var a := ReplaceVowelChar(c, 'á', 'Á', 'a');
    var e := ReplaceVowelChar(a, 'é', 'É', 'e');
    var i := ReplaceVowelChar(e, 'í', 'Í', 'i');
    var o := ReplaceVowelChar(i, 'ó', 'Ó', 'o');
    ReplaceVowelChar(o, 'ú', 'Ú', 'u')
  }

  /** What the lower-casing and vowel passes do to one non-space character. */
  function Fold(c: char): (r: char)
    requires !IsSpace(c)
    ensures IsClean(r)
    ensures IsClean(c) ==> r == c
  {
    FoldVowel(LowerChar(c))
  }

  /** Reference definition of `limpia`: drop white space, fold every other character. */
  function Canon(s: string): string
  {
    if s == [] then []
    else (if IsSpace(s[0]) then [] else [Fold(s[0])]) + Canon(s[1..])
  }

  lemma CanonCons(c: char, rest: string)
    ensures Canon([c] + rest) == (if IsSpace(c) then [] else [Fold(c)]) + Canon(rest)
  {
    assert ([c] + rest)[1..] == rest;
  }

  lemma {:induction false} CanonAppend(a: string, b: string)
    ensures Canon(a + b) == Canon(a) + Canon(b)
    decreases |a|
  {
    if a == [] {
      assert a + b == b;
    } else {
      var t := a[1..];
      assert a == [a[0]] + t;
      assert a + b == [a[0]] + (t + b);
      CanonCons(a[0], t + b);
      CanonCons(a[0], t);
      CanonAppend(t, b);
      AppendAssoc(if IsSpace(a[0]) then [] else [Fold(a[0])], Canon(t), Canon(b));
    }
  }

  /** The reference definition yields only clean characters, never lengthens, and fixes clean input. */
  lemma {:induction false} CanonIsClean(s: string)
    ensures Clean(Canon(s))
    ensures |Canon(s)| <= |s|
    ensures Clean(s) ==> Canon(s) == s
    decreases |s|
  {
    if s != [] {
      CanonIsClean(s[1..]);
      var head := if IsSpace(s[0]) then [] else [Fold(s[0])];
      assert Canon(s) == head + Canon(s[1..]);
      if Clean(s) {
        assert Clean(s[1..]);
        assert s == [s[0]] + s[1..];
      }
    }
  }

  lemma {:induction false} CanonAllSpace(w: string)
    requires AllSpace(w)
    ensures Canon(w) == []
    decreases |w|
  {
    if w != [] {
      CanonAllSpace(w[1..]);
    }
  }

  lemma StripSpaceCons(c: char, rest: string)
    ensures StripSpace([c] + rest) == (if IsSpace(c) then [] else [c]) + StripSpace(rest)
  {
    assert ([c] + rest)[1..] == rest;
  }

  lemma ToLowerCons(c: char, rest: string)
    ensures ToLower([c] + rest) == [LowerChar(c)] + ToLower(rest)
  {
    assert ([c] + rest)[1..] == rest;
  }

  lemma ReplaceVowelCons(c: char, rest: string, accented: char, upper: char, plain: char)
    ensures ReplaceVowel([c] + rest, accented, upper, plain)
         == [ReplaceVowelChar(c, accented, upper, plain)] + ReplaceVowel(rest, accented, upper, plain)
  {
    assert ([c] + rest)[1..] == rest;
  }

  lemma DeaccentCons(c: char, rest: string)
    ensures Deaccent([c] + rest) == [FoldVowel(c)] + Deaccent(rest)
  {
    var a := ReplaceVowelChar(c, 'á', 'Á', 'a');
    var e := ReplaceVowelChar(a, 'é', 'É', 'e');
    var i := ReplaceVowelChar(e, 'í', 'Í', 'i');
    var o := ReplaceVowelChar(i, 'ó', 'Ó', 'o');
    ReplaceVowelCons(c, rest, 'á', 'Á', 'a');
    var ra := ReplaceVowel(rest, 'á', 'Á', 'a');
    ReplaceVowelCons(a, ra, 'é', 'É', 'e');
    var re := ReplaceVowel(ra, 'é', 'É', 'e');
    ReplaceVowelCons(e, re, 'í', 'Í', 'i');
    var ri := ReplaceVowel(re, 'í', 'Í', 'i');
    ReplaceVowelCons(i, ri, 'ó', 'Ó', 'o');
    var ro := ReplaceVowel(ri, 'ó', 'Ó', 'o');
    ReplaceVowelCons(o, ro, 'ú', 'Ú', 'u');
  }

  /** Removing white space leaves none behind, leaves an answer without any unchanged, and keeps
      every other character exactly as often as it occurs. */
  lemma {:induction false} StripSpaceKeeps(s: string)
    ensures NoSpace(StripSpace(s))
    ensures NoSpace(s) ==> StripSpace(s) == s
    ensures forall c :: !IsSpace(c) ==> multiset(StripSpace(s))[c] == multiset(s)[c]
    decreases |s|
  {
    if s != [] {
      var c, rest := s[0], s[1..];
      assert s == [c] + rest;
      StripSpaceKeeps(rest);
      StripSpaceCons(c, rest);
      var kept := if IsSpace(c) then [] else [c];
      assert multiset(StripSpace(s)) == multiset(kept) + multiset(StripSpace(rest));
      assert multiset(s) == multiset{c} + multiset(rest);
    }
  }

  /** The five vowel passes rewrite each character on its own: position `i` of the result is
      `FoldVowel` of position `i` of the input. */
  lemma {:induction false} DeaccentPointwise(t: string)
    ensures |Deaccent(t)| == |t|
    ensures forall i :: 0 <= i < |t| ==> Deaccent(t)[i] == FoldVowel(t[i])
    decreases |t|
  {
    if t != [] {
      var c, rest := t[0], t[1..];
      assert t == [c] + rest;
      DeaccentCons(c, rest);
      DeaccentPointwise(rest);
    }
  }

  /** The pass-by-pass `limpia` agrees with the per-character reference definition. */
  lemma {:induction false} LimpiaIsCanon(s: string)
    ensures Limpia(s) == Canon(s)
    decreases |s|
  {
    if s != [] {
      var c, rest := s[0], s[1..];
      assert s == [c] + rest;
      StripSpaceCons(c, rest);
      CanonCons(c, rest);
      LimpiaIsCanon(rest);
      if !IsSpace(c) {
        ToLowerCons(c, StripSpace(rest));
        DeaccentCons(LowerChar(c), ToLower(StripSpace(rest)));
      }
    }
  }

  // ---------------------------------------------------------------------------------------
  // Properties of `limpia`

  /** `limpia` output holds no white space, no upper-case letter and no accented vowel; it is
      never longer than its input, and leaves an already canonical string alone. */
  lemma LimpiaCanonical(s: string)
    ensures Clean(Limpia(s))
    ensures NoSpace(Limpia(s))
    ensures forall i :: 0 <= i < |Limpia(s)| ==> !IsUpper(Limpia(s)[i]) && !IsAccented(Limpia(s)[i])
    ensures |Limpia(s)| <= |s|
    ensures Clean(s) ==> Limpia(s) == s
  {
    LimpiaIsCanon(s);
    CanonIsClean(s);
  }

  /** Normalising twice gives nothing new. */
  lemma LimpiaIdempotent(s: string)
    ensures Limpia(Limpia(s)) == Limpia(s)
  {
    LimpiaCanonical(s);
    LimpiaCanonical(Limpia(s));
  }

  /** Every answer is accepted against its own canonical form, in both directions. */
  lemma MatchesOwnCanonicalForm(s: string)
    ensures Matches(s, Limpia(s)) && Matches(Limpia(s), s)
  {
    LimpiaIdempotent(s);
  }

  /** `limpia` works character by character, so it distributes over concatenation. */
  lemma LimpiaAppend(a: string, b: string)
    ensures Limpia(a + b) == Limpia(a) + Limpia(b)
  {
    LimpiaIsCanon(a + b);
    LimpiaIsCanon(a);
    LimpiaIsCanon(b);
    CanonAppend(a, b);
  }

  /** Dropping a white-space prefix never changes the canonical form. */
  lemma LimpiaIgnoresLeadingSpace(lead: string, core: string)
    requires AllSpace(lead)
    ensures Limpia(lead + core) == Limpia(core)
  {
    LimpiaIsCanon(lead + core);
    LimpiaIsCanon(core);
    CanonAppend(lead, core);
    CanonAllSpace(lead);
  }

  /** Dropping a white-space suffix never changes the canonical form. */
  lemma LimpiaIgnoresTrailingSpace(core: string, trail: string)
    requires AllSpace(trail)
    ensures Limpia(core + trail) == Limpia(core)
  {
    LimpiaIsCanon(core + trail);
    LimpiaIsCanon(core);
    CanonAppend(core, trail);
    CanonAllSpace(trail);
  }

  lemma LimpiaIgnoresTrimStart(s: string)
    ensures Limpia(TrimStart(s)) == Limpia(s)
  {
    var t := TrimStart(s);
    assert s == s[..|s| - |t|] + t;
    LimpiaIgnoresLeadingSpace(s[..|s| - |t|], t);
  }

  lemma LimpiaIgnoresTrimEnd(s: string)
    ensures Limpia(TrimEnd(s)) == Limpia(s)
  {
    var r := TrimEnd(s);
    assert s == r + s[|r|..];
    LimpiaIgnoresTrailingSpace(r, s[|r|..]);
  }

  /** The prompt helper trims every typed line; trimming never changes the canonical form. */
  lemma LimpiaIgnoresTrim(s: string)
    ensures Limpia(Trim(s)) == Limpia(s)
  {
    LimpiaIgnoresTrimStart(s);
    LimpiaIgnoresTrimEnd(TrimStart(s));
  }

  /** Hence a trimmed line is accepted exactly when the line as typed would be. */
  lemma MatchesIgnoresTrim(given: string, expected: string)
    ensures Matches(Trim(given), expected) <==> Matches(given, expected)
  {
    LimpiaIgnoresTrim(given);
  }

  /** White space around an answer is ignored. */
  lemma LimpiaIgnoresPadding(lead: string, core: string, trail: string)
    requires AllSpace(lead) && AllSpace(trail)
    ensures Limpia(lead + core + trail) == Limpia(core)
  {
    assert lead + core + trail == lead + (core + trail);
    LimpiaIgnoresLeadingSpace(lead, core + trail);
    LimpiaIgnoresTrailingSpace(core, trail);
  }

  /** The comparison `testCmd` and `bucle` make: `makeQuestion` trims the reply, then both sides
      go through `limpia`. Trimming first changes nothing. */
  function Judge(reply: string, expected: string): (right: bool)
    ensures right <==> Limpia(reply) == Limpia(expected)
  {
    MatchesIgnoresTrim(reply, expected);
    Matches(Trim(reply), expected)
  }

  /** Lower-casing an answer first never changes its canonical form. */
  lemma {:induction false} LimpiaIgnoresCase(s: string)
    ensures Limpia(ToLower(s)) == Limpia(s)
    decreases |s|
  {
    LimpiaIsCanon(s);
    LimpiaIsCanon(ToLower(s));
    CanonIgnoresCase(s);
  }

  lemma {:induction false} CanonIgnoresCase(s: string)
    ensures Canon(ToLower(s)) == Canon(s)
    decreases |s|
  {
    if s != [] {
      var c, rest := s[0], s[1..];
      assert s == [c] + rest;
      ToLowerCons(c, rest);
      CanonCons(LowerChar(c), ToLower(rest));
      CanonCons(c, rest);
      CanonIgnoresCase(rest);
    }
  }

  /** Writing an answer without its accents never changes its canonical form. */
  lemma LimpiaIgnoresAccents(s: string)
    ensures Limpia(Deaccent(s)) == Limpia(s)
  {
    LimpiaIsCanon(s);
    LimpiaIsCanon(Deaccent(s));
    CanonIgnoresAccents(s);
  }

  lemma FoldIgnoresAccent(c: char)
    requires !IsSpace(c)
    ensures !IsSpace(FoldVowel(c)) && Fold(FoldVowel(c)) == Fold(c)
  {
    if IsAccented(c) {
      assert c in "áéíóúÁÉÍÓÚ";
    }
  }

  lemma {:induction false} CanonIgnoresAccents(s: string)
    ensures Canon(Deaccent(s)) == Canon(s)
    decreases |s|
  {
    if s != [] {
      var c, rest := s[0], s[1..];
      assert s == [c] + rest;
      DeaccentCons(c, rest);
      CanonCons(FoldVowel(c), Deaccent(rest));
      CanonCons(c, rest);
      if !IsSpace(c) {
        FoldIgnoresAccent(c);
      } else {
        assert IsSpace(FoldVowel(c));
      }
      CanonIgnoresAccents(rest);
    }
  }

  // ---------------------------------------------------------------------------------------
  // A worked example: "Corazón", "corazon" and "  CORAZON " all normalise to "corazon".
  // The strings are parameters fixed by `requires` so that the verifier does not evaluate
  // `limpia` on a literal.

  /** The three spellings of the same answer are accepted for one another. */
  lemma CorazonExample(accented: string, plain: string, shouted: string)
    requires accented == "Corazón" && plain == "corazon" && shouted == "  CORAZON "
    ensures Limpia(accented) == Limpia(plain) == Limpia(shouted) == "corazon"
    ensures Matches(accented, plain) && Matches(shouted, plain)
  {
    ExampleAccent(accented);
    ExampleLower(plain);
    ExampleUpper(shouted);
  }

  lemma LowerAsciiClean(c: char)
    requires 'a' <= c <= 'z'
    ensures IsClean(c)
  {
  }

  lemma CleanLowerWord(s: string)
    requires forall i :: 0 <= i < |s| ==> 'a' <= s[i] <= 'z'
    ensures Clean(s)
  {
    forall i | 0 <= i < |s|
      ensures IsClean(s[i])
    {
      LowerAsciiClean(s[i]);
    }
  }

  lemma FoldUpperAscii(c: char)
    requires 'A' <= c <= 'Z'
    ensures !IsSpace(c) && Fold(c) as int == c as int + 32
  {
    var l := LowerChar(c);
    LowerAsciiClean(l);
  }

  lemma FoldSmallO(c: char)
    requires c == 'ó'
    ensures !IsSpace(c) && Fold(c) == 'o'
  {
    assert !IsUpper(c);
  }

  lemma {:induction false} UpperWord(s: string)
    requires forall i :: 0 <= i < |s| ==> 'A' <= s[i] <= 'Z'
    ensures |Canon(s)| == |s|
    ensures forall i :: 0 <= i < |s| ==> Canon(s)[i] as int == s[i] as int + 32
    decreases |s|
  {
    if s != [] {
      FoldUpperAscii(s[0]);
      CanonCons(s[0], s[1..]);
      assert s == [s[0]] + s[1..];
      UpperWord(s[1..]);
    }
  }

  lemma ExampleLower(s: string)
    requires s == "corazon"
    ensures Limpia(s) == "corazon"
  {
    CleanLowerWord(s);
    LimpiaIsCanon(s);
    CanonIsClean(s);
  }

  lemma ExampleAccent(s: string)
    requires s == "Corazón"
    ensures Limpia(s) == "corazon"
  {
    LimpiaIsCanon(s);
    var w, v := s[1..5], s[5..];
    assert s == [s[0]] + (w + v);
    FoldUpperAscii(s[0]);
    CanonCons(s[0], w + v);
    CanonAppend(w, v);
    CanonOfLowerWord(w);
    CanonOfAccentedO(v);
  }

  lemma CanonOfLowerWord(w: string)
    requires w == "oraz"
    ensures Canon(w) == w
  {
    CleanLowerWord(w);
    CanonIsClean(w);
  }

  lemma CanonOfAccentedO(v: string)
    requires v == "ón"
    ensures Canon(v) == "on"
  {
    FoldSmallO(v[0]);
    assert v == [v[0]] + v[1..];
    CanonCons(v[0], v[1..]);
    CleanLowerWord(v[1..]);
    CanonIsClean(v[1..]);
  }

  lemma ExampleUpper(s: string)
    requires s == "  CORAZON "
    ensures Limpia(s) == "corazon"
  {
    var lead, core, trail := s[..2], s[2..9], s[9..];
    assert s == lead + core + trail;
    assert lead == [' ', ' '] && trail == [' '];
    LimpiaIgnoresPadding(lead, core, trail);
    LimpiaIsCanon(core);
    CanonOfUpperWord(core);
  }

  lemma CanonOfUpperWord(core: string)
    requires core == "CORAZON"
    ensures Canon(core) == "corazon"
  {
    UpperWord(core);
  }
}
