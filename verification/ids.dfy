/**
 Quiz identifiers: `validateId` (cmds.js) and the two JavaScript conversions it relies on,
 `parseInt(string)` with no radix argument and `String(number)` for an integer.
 */
module Ids {
  import opened Wrappers
  import opened Text

  /** The rejections a command handler or the play loop can meet. */
  datatype Error =
    | MissingArgument   // "Falta el parametro <id>."
    | NotANumber        // "El valor del parámetro <id> no es un número."
    | NotFound          // "No existe un quiz asociado al id=..."

  predicate IsDecimalDigit(c: char)
  {
    '0' <= c <= '9'
  }

  /** A digit of radix 10 or 16 (letters in either case). */
  predicate IsDigit(c: char, hex: bool)
  {
    IsDecimalDigit(c) || (hex && (('a' <= c <= 'f') || ('A' <= c <= 'F')))
  }

  function DigitValue(c: char): (v: nat)
    requires IsDigit(c, true)
    ensures v < 16
    ensures IsDecimalDigit(c) ==> v < 10
  {
    if IsDecimalDigit(c) then c as int - '0' as int
    else if 'a' <= c <= 'f' then c as int - 'a' as int + 10
    else c as int - 'A' as int + 10
  }

  /** Length of the longest prefix of `s` made of digits. */
  function DigitRun(s: string, hex: bool): (n: nat)
    ensures n <= |s|
    ensures forall i :: 0 <= i < n ==> IsDigit(s[i], hex)
    ensures n < |s| ==> !IsDigit(s[n], hex)
  {
    if s != [] && IsDigit(s[0], hex) then 1 + DigitRun(s[1..], hex) else 0
  }

  /** The value of a digit string, most significant digit first. */
  function Value(d: string, hex: bool): nat
    requires forall i :: 0 <= i < |d| ==> IsDigit(d[i], hex)
  {
    if d == [] then 0
    else
      var last := d[|d| - 1];
      assert IsDigit(last, hex);
      Value(d[..|d| - 1], hex) * (if hex then 16 else 10) + DigitValue(last)
  }

  /** `0x` or `0X`, which makes `parseInt` without a radix read hexadecimal. */
  predicate HasHexPrefix(u: string)
  {
    |u| >= 2 && u[0] == '0' && (u[1] == 'x' || u[1] == 'X')
  }

  /** What remains after the leading white space and one optional sign. */
  function Unsigned(s: string): string
  {
    var t := TrimStart(s);
    if |t| > 0 && (t[0] == '-' || t[0] == '+') then t[1..] else t
  }

  predicate IsNegative(s: string)
  {
    var t := TrimStart(s);
    |t| > 0 && t[0] == '-'
  }

  /** The digits `parseInt` reads once white space and sign are gone: a `0x` prefix switches to
      hexadecimal, then the longest run of digits counts and the rest is ignored. */
  function ParseDigits(u: string): Option<nat>
  {
    var hex := HasHexPrefix(u);
    var body := if hex then u[2..] else u;
    var n := DigitRun(body, hex);
    if n == 0 then None else Some(Value(body[..n], hex))
  }

  /** Applies the sign `parseInt` saw to the magnitude it read. */
  function Signed(negative: bool, magnitude: Option<nat>): Option<int>
  {
    match magnitude
    case None => None
    case Some(v) => Some(if negative then 0 - v else v)
  }

  /** `parseInt(s)` with the radix left undefined; `None` is `NaN`. The result `-0` is `0` here. */
  function ParseInt(s: string): Option<int>
  {
    Signed(IsNegative(s), ParseDigits(Unsigned(s)))
  }

  function DigitChar(d: nat): (c: char)
    requires d < 10
    ensures IsDecimalDigit(c) && DigitValue(c) == d
  {
    ('0' as int + d) as char
  }

  /** `String(n)` for a natural number: decimal digits, no leading zero. */
  function RenderNat(n: nat): (r: string)
    ensures |r| >= 1
    ensures forall i :: 0 <= i < |r| ==> IsDecimalDigit(r[i])
    ensures r[0] == '0' ==> n == 0
  {
    if n < 10 then [DigitChar(n)] else RenderNat(n / 10) + [DigitChar(n % 10)]
  }

  /** `String(n)` for an integer id. */
  function Render(n: int): (r: string)
    ensures |r| >= 1 && !IsSpace(r[0])
  {
    if n < 0 then "-" + RenderNat(-n) else RenderNat(n)
  }

  /** `validateId`: an absent argument is rejected, then `parseInt` decides. */
  function ValidateId(arg: Option<string>): (r: Result<int, Error>)
    ensures r == Failure(MissingArgument) <==> arg.None?
    ensures r.Failure? ==> r.error != NotFound
    ensures arg.Some? ==> (r.Success? <==> ParseInt(arg.value).Some?)
    ensures r.Success? ==> Some(r.value) == ParseInt(arg.value)
  {
    match arg
    case None => Failure(MissingArgument)
    case Some(s) =>
      match ParseInt(s)
      case None => Failure(NotANumber)
      case Some(v) => Success(v)
  }

  // ---------------------------------------------------------------------------------------
  // Properties

  lemma {:induction false} ValueOfRender(n: nat)
    ensures Value(RenderNat(n), false) == n
    decreases n
  {
    if n >= 10 {
      var r := RenderNat(n);
      var p := RenderNat(n / 10);
      assert r[..|r| - 1] == p;
      ValueOfRender(n / 10);
    }
  }

  lemma DigitRunOfRender(n: nat, t: string)
    requires t == [] || !IsDecimalDigit(t[0])
    ensures DigitRun(RenderNat(n) + t, false) == |RenderNat(n)|
  {
    DigitRunPrefix(RenderNat(n), t);
  }

  lemma {:induction false} DigitRunPrefix(d: string, t: string)
    requires forall i :: 0 <= i < |d| ==> IsDecimalDigit(d[i])
    requires t == [] || !IsDecimalDigit(t[0])
    ensures DigitRun(d + t, false) == |d|
    decreases |d|
  {
    if d == [] {
      assert d + t == t;
    } else {
      assert (d + t)[1..] == d[1..] + t;
      DigitRunPrefix(d[1..], t);
    }
  }

  /** `parseInt` gives `NaN` exactly when, after white space and sign, no decimal digit comes
      first, or a `0x` prefix is followed by no hexadecimal digit. */
  lemma ParseIntNaN(s: string)
    ensures ParseInt(s).None? <==>
      var u := Unsigned(s);
      u == [] || !IsDecimalDigit(u[0]) || (HasHexPrefix(u) && (|u| == 2 || !IsDigit(u[2], true)))
  {
  }

  /** `parseInt` looks at nothing but what follows the leading white space. */
  lemma ParseIntAfterSpace(a: string, b: string)
    requires TrimStart(a) == TrimStart(b)
    ensures ParseInt(a) == ParseInt(b)
  {
    assert Unsigned(a) == Unsigned(b);
    assert IsNegative(a) == IsNegative(b);
  }

  /** Leading white space is skipped by `parseInt`. */
  lemma {:induction false} TrimStartSkipsSpace(w: string, s: string)
    requires AllSpace(w)
    ensures TrimStart(w + s) == TrimStart(s)
    decreases |w|
  {
    if w == [] {
      assert w + s == s;
    } else {
      assert (w + s)[1..] == w[1..] + s;
      TrimStartSkipsSpace(w[1..], s);
    }
  }

  lemma ParseIntSkipsLeadingSpace(w: string, s: string)
    requires AllSpace(w)
    ensures ParseInt(w + s) == ParseInt(s)
  {
    TrimStartSkipsSpace(w, s);
    ParseIntAfterSpace(w + s, s);
  }

  lemma ParseDigitsOfRender(m: nat, t: string)
    requires t == [] || !IsDecimalDigit(t[0])
    requires m == 0 ==> t == [] || (t[0] != 'x' && t[0] != 'X')
    ensures ParseDigits(RenderNat(m) + t) == Some(m)
  {
    var d := RenderNat(m);
    var u := d + t;
    assert !HasHexPrefix(u) by {
      if |d| >= 2 {
        assert u[1] == d[1];
      } else {
        assert u[0] == d[0];
      }
    }
    DigitRunOfRender(m, t);
    assert u[..|d|] == d;
    ValueOfRender(m);
  }

  /** A string that starts with neither white space nor a sign is its own unsigned part. */
  lemma UnsignedOfBare(s: string)
    requires s == [] || (!IsSpace(s[0]) && s[0] != '-' && s[0] != '+')
    ensures Unsigned(s) == s && !IsNegative(s)
  {
    assert TrimStart(s) == s;
  }

  /** One sign in front of a bare string is consumed, and only `-` makes it negative. */
  lemma UnsignedOfSigned(c: char, s: string)
    requires c == '-' || c == '+'
    requires s == [] || !IsSpace(s[0])
    ensures Unsigned([c] + s) == s
    ensures IsNegative([c] + s) <==> c == '-'
  {
    var x := [c] + s;
    assert TrimStart(x) == x;
    assert x[1..] == s;
  }

  /** `parseInt` of a string whose sign and digits are already known. */
  lemma ParseIntOfParts(x: string, negative: bool, u: string, v: nat)
    requires IsNegative(x) == negative && Unsigned(x) == u && ParseDigits(u) == Some(v)
    ensures ParseInt(x) == Signed(negative, Some(v))
  {
  }

  lemma ParseIntReadsNatPrefix(n: int, t: string)
    requires n >= 0
    requires t == [] || !IsDecimalDigit(t[0])
    requires n == 0 ==> t == [] || (t[0] != 'x' && t[0] != 'X')
    ensures ParseInt(Render(n) + t) == Some(n)
  {
    var u := RenderNat(n) + t;
    assert Render(n) + t == u;
    ParseDigitsOfRender(n, t);
    UnsignedOfBare(u);
    ParseIntOfParts(u, false, u, n);
  }

  lemma ParseIntReadsNegativePrefix(n: int, t: string)
    requires n < 0
    requires t == [] || !IsDecimalDigit(t[0])
    ensures ParseInt(Render(n) + t) == Some(n)
  {
    var m: nat := -n;
    var u := RenderNat(m) + t;
    assert Render(n) + t == ['-'] + u;
    ParseDigitsOfRender(m, t);
    UnsignedOfSigned('-', u);
    ParseIntOfParts(['-'] + u, true, u, m);
  }

  /** The digit part of a decimal literal: a run of decimal digits followed by a non-digit. */
  lemma ParseDigitsOfDigits(d: string, t: string)
    requires |d| >= 1 && forall i :: 0 <= i < |d| ==> IsDecimalDigit(d[i])
    requires t == [] || !IsDecimalDigit(t[0])
    requires d == "0" ==> t == [] || (t[0] != 'x' && t[0] != 'X')
    ensures ParseDigits(d + t) == Some(Value(d, false))
  {
    var u := d + t;
    assert !HasHexPrefix(u) by {
      if |d| >= 2 {
        assert u[1] == d[1];
      } else if d[0] == '0' {
        assert d == "0";
      }
    }
    DigitRunPrefix(d, t);
    assert u[..|d|] == d;
  }

  /** A run of decimal digits followed by anything that is not a digit reads as the run's decimal
      value, leading zeros included (`"007abc"` gives 7). A lone `0` followed by `x` or `X` would
      open a hexadecimal literal instead, so that case is excluded. */
  lemma ParseIntReadsDigits(d: string, t: string)
    requires |d| >= 1 && forall i :: 0 <= i < |d| ==> IsDecimalDigit(d[i])
    requires t == [] || !IsDecimalDigit(t[0])
    requires d == "0" ==> t == [] || (t[0] != 'x' && t[0] != 'X')
    ensures ParseInt(d + t) == Some(Value(d, false))
  {
    var u := d + t;
    ParseDigitsOfDigits(d, t);
    UnsignedOfBare(u);
    ParseIntOfParts(u, false, u, Value(d, false));
  }

  /** The integer prefix is read and the rest discarded: `"12abc"` gives 12, `"7"` gives 7. A
      trailing `x` after a lone `0` would instead open a hexadecimal literal, so it is excluded. */
  lemma ParseIntReadsPrefix(n: int, t: string)
    requires t == [] || !IsDecimalDigit(t[0])
    requires n == 0 ==> t == [] || (t[0] != 'x' && t[0] != 'X')
    ensures ParseInt(Render(n) + t) == Some(n)
  {
    if n < 0 {
      ParseIntReadsNegativePrefix(n, t);
    } else {
      ParseIntReadsNatPrefix(n, t);
    }
  }

  /** Rendering an id and validating it gives the id back: the play loop's round trip. */
  lemma ValidateRendered(n: int)
    ensures ParseInt(Render(n)) == Some(n)
    ensures ValidateId(Some(Render(n))) == Success(n)
  {
    ParseIntReadsPrefix(n, []);
    assert Render(n) + [] == Render(n);
  }

  /** A minus sign negates what follows it; a plus sign is ignored. */
  lemma ParseIntSign(s: string)
    requires s == [] || (!IsSpace(s[0]) && s[0] != '-' && s[0] != '+')
    ensures ParseInt("-" + s) == Signed(true, ParseInt(s))
    ensures ParseInt("+" + s) == ParseInt(s)
  {
    UnsignedOfBare(s);
    UnsignedOfSigned('-', s);
    UnsignedOfSigned('+', s);
  }
}
