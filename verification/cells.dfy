/**
 * Cells of the course table and the best-effort coercions the course
 * search app applies to them: `safe_int`, `safe_float` and `contains_any`
 * (snu_sugang_2026_1_streamlit.py). None of them ever fails: an input they
 * cannot read yields `None`.
 */
module Cells {
  import opened Common

  /**
   * One cell of a parsed table. `Missing` is pandas' NaN (or None); `Text`
   * is what the spreadsheet held; `Count` is an integer the app computed
   * itself (the remaining-seat column).
   */
  datatype Cell = Missing | Text(text: string) | Count(count: int)

  /** `str(x)`, which is also what `astype(str)` makes of a cell: NaN reads "nan". */
  function CellText(c: Cell): string {
    match c
    case Missing => "nan"
    case Text(s) => s
    case Count(n) => IntToText(n)
  }

  /** `s.lower() in {"nan", "none"}`. */
  predicate IsNullWord(s: string) {
    Lower(s) == "nan" || Lower(s) == "none"
  }

  /** The characters `re.sub(r"[^\d\-]+", "", s)` keeps; with `dot`, those of `[^\d\.\-]+`. */
  predicate Kept(c: char, dot: bool) {
    IsDigit(c) || c == '-' || (dot && c == '.')
  }

  /** The residue of `s` once every character outside the kept class is deleted. */
  function Residue(s: string, dot: bool): (r: string)
    ensures |r| <= |s|
    ensures forall i :: 0 <= i < |r| ==> Kept(r[i], dot)
  {
    if s == [] then [] else (if Kept(s[0], dot) then [s[0]] else []) + Residue(s[1..], dot)
  }

  /** Python's `int(u)` on a string of digits and dashes: an optional leading '-' and at least one digit. */
  function ParseInteger(u: string): (r: Option<int>)
    ensures r.Some? <==> (u != [] && AllDigits(u)) || (|u| > 1 && u[0] == '-' && AllDigits(u[1..]))
  {
    if |u| > 1 && u[0] == '-' && AllDigits(u[1..]) then Some(-(DigitsValue(u[1..]) as int))
    else if u != [] && AllDigits(u) then Some(DigitsValue(u))
    else None
  }

  /** `safe_int` on a string (snu_sugang_2026_1_streamlit.py:84-96). */
  function SafeIntText(s: string): Option<int> {
    var t := Strip(s);
    if t == [] || IsNullWord(t) then None
    else
      var u := Residue(t, false);
      if u == "" || u == "-" then None else ParseInteger(u)
  }

  /** `safe_int(x)`: None stays None, anything else is read through `str(x)`. */
  function SafeInt(x: Cell): Option<int> {
    if x.Missing? then None else SafeIntText(CellText(x))
  }

  function Pow10(n: nat): (p: nat)
    ensures p >= 1
  {
    if n == 0 then 1 else 10 * Pow10(n - 1)
  }

  /** Index of the first '.' in `u`, or |u| when there is none. */
  function DotIndex(u: string): (k: nat)
    ensures k <= |u|
    ensures forall i :: 0 <= i < k ==> u[i] != '.'
    ensures k < |u| ==> u[k] == '.'
  {
    if u == [] || u[0] == '.' then 0 else 1 + DotIndex(u[1..])
  }

  /** Python's `float(u)` on an unsigned string of digits and dots: digits, at most one '.', at least one digit. */
  function ParseUnsignedDecimal(u: string): Option<real> {
    var k := DotIndex(u);
    var whole := u[..k];
    var frac := if k < |u| then u[k + 1..] else [];
    if AllDigits(whole) && AllDigits(frac) && |whole| + |frac| > 0 then
      Some(DigitsValue(whole) as real + DigitsValue(frac) as real / Pow10(|frac|) as real)
    else
      None
  }

  /** Python's `float(u)` on a string of digits, dots and dashes, read as an exact decimal. */
  function ParseDecimal(u: string): Option<real> {
    if |u| > 0 && u[0] == '-' then
      match ParseUnsignedDecimal(u[1..])
      case Some(v) => Some(-v)
      case None => None
    else
      ParseUnsignedDecimal(u)
  }

  /** `safe_float` on a string (snu_sugang_2026_1_streamlit.py:99-111), with the value kept exact. */
  function SafeFloatText(s: string): Option<real> {
    var t := Strip(s);
    if t == [] || IsNullWord(t) then None
    else
      var u := Residue(t, true);
      if u == "" || u == "-" || u == "." || u == "-." then None else ParseDecimal(u)
  }

  /** `safe_float(x)`. */
  function SafeFloat(x: Cell): Option<real> {
    if x.Missing? then None else SafeFloatText(CellText(x))
  }

  /** `contains_any(text, needles)` (snu_sugang_2026_1_streamlit.py:114-116). */
  function ContainsAny(text: string, needles: seq<string>): (b: bool)
    ensures b <==> exists i :: 0 <= i < |needles| && Contains(text, needles[i])
  {
    if needles == [] then false
    else Contains(text, needles[0]) || ContainsAny(text, needles[1..])
  }

  // ---------------------------------------------------------------------
  // What the coercions compute
  // ---------------------------------------------------------------------

  lemma {:induction false} ResidueAppend(a: string, b: string, dot: bool)
    ensures Residue(a + b, dot) == Residue(a, dot) + Residue(b, dot)
  {
    if a == [] {
      assert a + b == b;
    } else {
      assert (a + b)[1..] == a[1..] + b;
      ResidueAppend(a[1..], b, dot);
    }
  }

  lemma {:induction false} ResidueNone(s: string, dot: bool)
    requires forall i :: 0 <= i < |s| ==> !Kept(s[i], dot)
    ensures Residue(s, dot) == []
  {
    if s != [] {
      ResidueNone(s[1..], dot);
    }
  }

  lemma {:induction false} ResidueAll(s: string, dot: bool)
    requires forall i :: 0 <= i < |s| ==> Kept(s[i], dot)
    ensures Residue(s, dot) == s
  {
    if s != [] {
      ResidueAll(s[1..], dot);
    }
  }

  lemma {:induction false} ResidueWithoutDot(s: string)
    requires forall i :: 0 <= i < |s| ==> s[i] != '.'
    ensures Residue(s, true) == Residue(s, false)
  {
    if s != [] {
      ResidueWithoutDot(s[1..]);
    }
  }

  /** Stripping never changes the residue: whitespace is not kept anyway. */
  lemma ResidueOfStrip(s: string, dot: bool)
    ensures Residue(Strip(s), dot) == Residue(s, dot)
  {
    var pre, post := StripParts(s);
    var r := Strip(s);
    ResidueAppend(pre + r, post, dot);
    ResidueAppend(pre, r, dot);
    SpacesDropped(pre, dot);
    SpacesDropped(post, dot);
  }

  lemma SpacesDropped(s: string, dot: bool)
    requires AllSpace(s)
    ensures Residue(s, dot) == []
  {
    forall i | 0 <= i < |s|
      ensures !Kept(s[i], dot)
    {
      assert IsSpace(s[i]);
    }
    ResidueNone(s, dot);
  }

  /** "nan" and "none", in any case, contain nothing the residue keeps. */
  lemma NullWordResidue(t: string, dot: bool)
    requires IsNullWord(t)
    ensures Residue(t, dot) == []
  {
    forall i | 0 <= i < |t|
      ensures !Kept(t[i], dot)
    {
      assert Lower(t)[i] == LowerChar(t[i]);
    }
    ResidueNone(t, dot);
  }

  /**
   * The early exits of `safe_int` are subsumed by the last step: whatever
   * the input, `safe_int` is `int()` of the digits-and-dashes residue, or
   * None when that residue is not an optionally signed digit string.
   */
  lemma SafeIntIsResidue(s: string)
    ensures SafeIntText(s) == ParseInteger(Residue(s, false))
  {
    var t := Strip(s);
    ResidueOfStrip(s, false);
    if t == [] || IsNullWord(t) {
      EarlyExitResidue(t, false);
    }
  }

  /** Likewise `safe_float` is `float()` of its residue, or None when `float()` would reject it. */
  lemma SafeFloatIsResidue(s: string)
    ensures SafeFloatText(s) == ParseDecimal(Residue(s, true))
  {
    var t := Strip(s);
    ResidueOfStrip(s, true);
    ShortResiduesRejected();
    if t == [] || IsNullWord(t) {
      EarlyExitResidue(t, true);
    }
  }

  /** What the early exits let through would have left an empty residue anyway. */
  lemma EarlyExitResidue(t: string, dot: bool)
    requires t == [] || IsNullWord(t)
    ensures Residue(t, dot) == []
  {
    if t != [] {
      NullWordResidue(t, dot);
    }
  }

  /** The residues `safe_float` turns away by name are exactly ones `float()` rejects too. */
  lemma ShortResiduesRejected()
    ensures ParseDecimal("") == None && ParseDecimal("-") == None
    ensures ParseDecimal(".") == None && ParseDecimal("-.") == None
  {
    assert "-"[1..] == "";
    assert "-."[1..] == ".";
    assert DotIndex(".") == 0 && "."[1..] == "";
  }

  lemma IntToTextKept(n: int)
    ensures forall i :: 0 <= i < |IntToText(n)| ==> Kept(IntToText(n)[i], false)
    ensures ParseInteger(IntToText(n)) == Some(n)
  {
    if n < 0 {
      assert IntToText(n)[1..] == NatToText(-n);
    }
  }

  /**
   * A number survives any noise around it that holds no digit and no dash:
   * `safe_int` reads back the integer that `str(n)` wrote.
   */
  lemma {:induction false} SafeIntAmidNoise(prefix: string, n: int, suffix: string)
    requires forall i :: 0 <= i < |prefix| ==> !Kept(prefix[i], false)
    requires forall i :: 0 <= i < |suffix| ==> !Kept(suffix[i], false)
    ensures SafeIntText(prefix + IntToText(n) + suffix) == Some(n)
  {
    var t := IntToText(n);
    SafeIntIsResidue(prefix + t + suffix);
    IntToTextKept(n);
    ResidueAmidNoise(prefix, t, suffix);
  }

  lemma ResidueAmidNoise(prefix: string, t: string, suffix: string)
    requires forall i :: 0 <= i < |prefix| ==> !Kept(prefix[i], false)
    requires forall i :: 0 <= i < |t| ==> Kept(t[i], false)
    requires forall i :: 0 <= i < |suffix| ==> !Kept(suffix[i], false)
    ensures Residue(prefix + t + suffix, false) == t
  {
    ResidueAppend(prefix + t, suffix, false);
    ResidueAppend(prefix, t, false);
    ResidueNone(prefix, false);
    ResidueNone(suffix, false);
    ResidueAll(t, false);
  }

  /** A computed integer cell reads back as itself. */
  lemma SafeIntOfCount(n: int)
    ensures SafeInt(Count(n)) == Some(n)
  {
    var t := IntToText(n);
    SafeIntIsResidue(t);
    IntToTextKept(n);
    ResidueAll(t, false);
  }

  /** Without a '.', `float()` of the residue is the `int()` of it. */
  lemma {:induction false} ParseDecimalOfInteger(u: string)
    requires forall i :: 0 <= i < |u| ==> u[i] != '.'
    ensures ParseDecimal(u) == (match ParseInteger(u) case Some(n) => Some(n as real) case None => None)
  {
    if |u| > 0 && u[0] == '-' {
      assert DotIndex(u[1..]) == |u| - 1;
      assert u[1..][..|u| - 1] == u[1..];
    } else {
      assert DotIndex(u) == |u|;
      assert u[..|u|] == u;
    }
  }

  /** On text without a '.', `safe_float` agrees with `safe_int`. */
  lemma SafeFloatAgreesWithSafeInt(s: string)
    requires forall i :: 0 <= i < |s| ==> s[i] != '.'
    ensures SafeFloatText(s) == (match SafeIntText(s) case Some(n) => Some(n as real) case None => None)
  {
    SafeIntIsResidue(s);
    SafeFloatIsResidue(s);
    ResidueWithoutDot(s);
    var u := Residue(s, false);
    assert forall i :: 0 <= i < |u| ==> Kept(u[i], false);
    ParseDecimalOfInteger(u);
  }

  /** `safe_int("1,234 석")` is 1234: the comma and the unit are noise. */
  lemma SafeIntExample()
    ensures SafeIntText("1,234 석") == Some(1234)
  {
    SafeIntIsResidue("1,234 석");
    ResidueOfExample();
    DigitsOfExample();
  }

  lemma ResidueOfExample()
    ensures Residue("1,234 석", false) == "1234"
  {
    ResidueOfExampleHead();
    ResidueOfExampleTail();
    assert "1,234 석" == "1," + "234 석";
    ResidueAppend("1,", "234 석", false);
  }

  lemma ResidueOfExampleHead()
    ensures Residue("1,", false) == "1"
  {
    assert "1," == "1" + ",";
    ResidueAppend("1", ",", false);
    ResidueAll("1", false);
    ResidueNone(",", false);
  }

  lemma ResidueOfExampleTail()
    ensures Residue("234 석", false) == "234"
  {
    assert "234 석" == "234" + " 석";
    ResidueAppend("234", " 석", false);
    ResidueAll("234", false);
    ResidueNone(" 석", false);
  }

  lemma ResidueOfDotted()
    ensures Residue("3.5", false) == "35"
  {
    assert "3.5" == "3" + "." + "5";
    ResidueAppend("3" + ".", "5", false);
    ResidueAppend("3", ".", false);
    ResidueAll("3", false);
    ResidueNone(".", false);
    ResidueAll("5", false);
  }

  lemma DigitsOfExample()
    ensures DigitsValue("1234") == 1234
    ensures DigitsValue("35") == 35
  {
    assert "1234"[..3] == "123";
    assert "123"[..2] == "12";
    assert "12"[..1] == "1";
    assert "35"[..1] == "3";
  }

  /** A '.' is noise to `safe_int`, so "3.5" reads as 35. */
  lemma SafeIntDropsDot()
    ensures SafeIntText("3.5") == Some(35)
  {
    SafeIntIsResidue("3.5");
    ResidueOfDotted();
    DigitsOfExample();
  }

  /** A dash between digits makes the text unreadable. */
  lemma SafeIntRejects()
    ensures SafeIntText("1-2") == None
  {
    SafeIntIsResidue("1-2");
    ResidueOfDashed();
    ParseIntegerRejects();
  }

  lemma ResidueOfDashed()
    ensures Residue("1-2", false) == "1-2"
  {
    ResidueAll("1-2", false);
  }

  lemma ParseIntegerRejects()
    ensures ParseInteger("1-2") == None
  {
    assert !IsDigit("1-2"[1]);
  }

  /** `safe_float("3.0")` is 3. */
  lemma SafeFloatExample()
    ensures SafeFloatText("3.0") == Some(3.0)
  {
    SafeFloatIsResidue("3.0");
    ResidueOfDecimal();
    DecimalOfExample();
  }

  lemma ResidueOfDecimal()
    ensures Residue("3.0", true) == "3.0"
  {
    ResidueAll("3.0", true);
  }

  /** A cell without digits reads as None under both coercions, whatever symbols, dashes or dots it holds. */
  lemma SafeFloatNoDigits(s: string)
    requires NoDigits(s)
    ensures SafeFloatText(s) == None && SafeIntText(s) == None
  {
    SafeFloatIsResidue(s);
    SafeIntIsResidue(s);
    ResidueNoDigits(s, true);
    ResidueNoDigits(s, false);
    var u := Residue(s, true);
    ParseUnsignedNoDigits(u);
    if |u| > 0 && u[0] == '-' {
      ParseUnsignedNoDigits(u[1..]);
    }
    var v := Residue(s, false);
    if |v| > 1 {
      assert !IsDigit(v[1]) && v[1..][0] == v[1];
    }
  }

  lemma {:induction false} ResidueNoDigits(s: string, dot: bool)
    requires NoDigits(s)
    ensures NoDigits(Residue(s, dot))
  {
    if s != [] {
      ResidueNoDigits(s[1..], dot);
    }
  }

  /** `float()` needs a digit. */
  lemma ParseUnsignedNoDigits(u: string)
    requires NoDigits(u)
    ensures ParseUnsignedDecimal(u) == None
  {
    var k := DotIndex(u);
    if k > 0 {
      assert u[..k][0] == u[0];
    }
    if k + 1 < |u| {
      assert u[k + 1..][0] == u[k + 1];
    }
  }

  lemma DecimalOfExample()
    ensures ParseDecimal("3.0") == Some(3.0)
  {
    assert DotIndex("3.0") == 1;
    assert "3.0"[..1] == "3" && "3.0"[2..] == "0";
  }
}
