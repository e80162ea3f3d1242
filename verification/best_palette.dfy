/** The heuristic that picks a palette for a sprite from its name: reduce
    the name to a canonical stem and take the first palette whose name
    starts with it, falling back to the palette named `Bright1`. */
module BestPalette {
  import opened Wrappers
  import opened Errors
  import SpritePalette

  type Palette = SpritePalette.Palette

  /** The palette used when no name matches. */
  const FALLBACK: string := "Bright1"

  /** `s.split(c)[0]`: the text before the first `c`, or all of `s`. */
  function Before(s: string, c: char): (r: string)
    ensures |r| <= |s| && r == s[..|r|]
    ensures c !in r
    ensures |r| < |s| ==> s[|r|] == c
  {
    if |s| == 0 || s[0] == c then "" else [s[0]] + Before(s[1..], c)
  }

  predicate IsDigit(ch: char) {
    '0' <= ch <= '9'
  }

  /** `s.rstrip('0123456789')`: the longest prefix of `s` after which only
      digits follow and which does not itself end in a digit. */
  function StripDigits(s: string): (r: string)
    ensures |r| <= |s| && r == s[..|r|]
    ensures |r| == 0 || !IsDigit(r[|r| - 1])
    ensures forall i :: |r| <= i < |s| ==> IsDigit(s[i])
  {
    if |s| == 0 then ""
    else if IsDigit(s[|s| - 1]) then StripDigits(s[..|s| - 1])
    else s
  }

  /** No space or hyphen among `s[from..to]`. */
  predicate NoBreakBetween(s: string, from: nat, to: nat)
    requires from <= to <= |s|
  {
    forall j :: from <= j < to ==> s[j] != ' ' && s[j] != '-'
  }

  /** The text before the first space, then before the first hyphen, with
      trailing digits removed: the longest prefix free of spaces and
      hyphens that does not end in a digit, followed in `name` by digits up
      to the first space or hyphen or the end. */
  function CanonicalName(name: string): string {
    StripDigits(Before(Before(name, ' '), '-'))
  }

  /** The stem is a prefix of the name with no space or hyphen and no final
      digit; in the name it is followed by digits only, up to the first
      space or hyphen or the end. */
  lemma CanonicalStem(name: string)
    ensures var r := CanonicalName(name);
      && |r| <= |name| && r == name[..|r|]
      && ' ' !in r && '-' !in r
      && (|r| == 0 || !IsDigit(r[|r| - 1]))
      && forall i :: |r| <= i < |name| && NoBreakBetween(name, |r|, i) ==>
           IsDigit(name[i]) || name[i] == ' ' || name[i] == '-'
  {
    var a := Before(name, ' ');
    var b := Before(a, '-');
    var r := StripDigits(b);
    assert b == name[..|b|];
    assert ' ' !in b by {
      forall k | 0 <= k < |b| ensures b[k] != ' ' { assert b[k] == a[k]; }
    }
    assert r == b[..|r|];
    assert ' ' !in r && '-' !in r by {
      forall k | 0 <= k < |r| ensures r[k] != ' ' && r[k] != '-' { assert r[k] == b[k]; }
    }
    assert |b| < |name| ==> name[|b|] == ' ' || name[|b|] == '-' by {
      if |b| < |a| {
        assert name[|b|] == a[|b|];
      }
    }
    forall i | |r| <= i < |name| && NoBreakBetween(name, |r|, i)
      ensures IsDigit(name[i]) || name[i] == ' ' || name[i] == '-'
    {
      if i < |b| {
        assert name[i] == b[i];
      }
    }
  }

  /** Python's `s.startswith(prefix)`. */
  predicate StartsWith(s: string, prefix: string) {
    |prefix| <= |s| && s[..|prefix|] == prefix
  }

  /** The position of the first palette whose name passes `test`. */
  function FirstIndex(ps: seq<Palette>, test: string -> bool): (r: Option<nat>)
    ensures r.Some? ==> r.value < |ps| && test(ps[r.value].name)
    ensures r.Some? ==> forall j :: 0 <= j < r.value ==> !test(ps[j].name)
    ensures r.None? <==> forall j :: 0 <= j < |ps| ==> !test(ps[j].name)
  {
    if |ps| == 0 then None
    else if test(ps[0].name) then Some(0)
    else
      match FirstIndex(ps[1..], test)
      case None => None
      case Some(i) => Some(i + 1)
  }

  /** `find_best_palette`: the first palette, in list order, whose name
      starts with the canonical name; otherwise the first one named
      `Bright1`; and when there is none, the list comprehension's `[0]`
      raises. */
  function FindBestPalette(name: string, ps: seq<Palette>): (r: Result<Palette, Error>)
    ensures r.Success? ==> r.value in ps
    ensures r.Failure? <==> forall j :: 0 <= j < |ps| ==>
      !StartsWith(ps[j].name, CanonicalName(name)) && ps[j].name != FALLBACK
    ensures r.Failure? ==> r.error == NoFallbackPalette
    ensures forall i :: 0 <= i < |ps| && StartsWith(ps[i].name, CanonicalName(name)) ==>
      (forall j :: 0 <= j < i ==> !StartsWith(ps[j].name, CanonicalName(name))) ==> r == Success(ps[i])
    ensures (forall j :: 0 <= j < |ps| ==> !StartsWith(ps[j].name, CanonicalName(name))) ==>
      forall i :: 0 <= i < |ps| && ps[i].name == FALLBACK ==>
        (forall j :: 0 <= j < i ==> ps[j].name != FALLBACK) ==> r == Success(ps[i])
  {
    var stem := CanonicalName(name);
    match FirstIndex(ps, s => StartsWith(s, stem))
    case Some(i) => Success(ps[i])
    case None =>
      match FirstIndex(ps, s => s == FALLBACK)
      case Some(i) => Success(ps[i])
      case None => Failure(NoFallbackPalette)
  }

  /** `Before` stops at the first `c`. */
  lemma {:induction false} BeforeFirst(s: string, t: string, c: char)
    requires c !in s && |t| > 0 && t[0] == c
    ensures Before(s + t, c) == s
  {
    if |s| > 0 {
      assert (s + t)[1..] == s[1..] + t;
      BeforeFirst(s[1..], t, c);
    } else {
      assert (s + t)[0] == c;
    }
  }

  /** `StripDigits` removes exactly a trailing run of digits. */
  lemma {:induction false} StripDigitsRun(s: string, digits: string)
    requires |s| == 0 || !IsDigit(s[|s| - 1])
    requires forall i :: 0 <= i < |digits| ==> IsDigit(digits[i])
    ensures StripDigits(s + digits) == s
  {
    if |digits| == 0 {
      assert s + digits == s;
      if |s| > 0 {
        assert StripDigits(s) == s;
      }
    } else {
      var shorter := digits[..|digits| - 1];
      assert (s + digits)[..|s + digits| - 1] == s + shorter;
      StripDigitsRun(s, shorter);
    }
  }

  lemma CanonicalWolf()
    ensures CanonicalName("Wolf02-a (shadow)") == "Wolf"
  {
    WolfBeforeSpace();
    WolfBeforeHyphen();
    WolfWithoutDigits();
  }

  lemma WolfBeforeSpace()
    ensures Before("Wolf02-a (shadow)", ' ') == "Wolf02-a"
  {
    assert "Wolf02-a (shadow)" == "Wolf02-a" + " (shadow)";
    BeforeFirst("Wolf02-a", " (shadow)", ' ');
  }

  lemma WolfBeforeHyphen()
    ensures Before("Wolf02-a", '-') == "Wolf02"
  {
    assert "Wolf02-a" == "Wolf02" + "-a";
    BeforeFirst("Wolf02", "-a", '-');
  }

  lemma WolfWithoutDigits()
    ensures StripDigits("Wolf02") == "Wolf"
  {
    assert "Wolf02" == "Wolf" + "02";
    StripDigitsRun("Wolf", "02");
  }

  /** A first palette whose name is the stem of `name` is the one chosen. */
  lemma StemHeadWins(name: string, first: Palette, rest: seq<Palette>)
    requires first.name == CanonicalName(name)
    ensures FindBestPalette(name, [first] + rest) == Success(first)
  {
    assert StartsWith(([first] + rest)[0].name, CanonicalName(name));
  }

  /** The sprite `Wolf02-a (shadow)` is drawn with the palette `Wolf` when
      that one is listed first, whatever follows it (`Bright1` included). */
  lemma WolfListedFirst(wolf: Palette, rest: seq<Palette>)
    requires wolf.name == "Wolf"
    ensures FindBestPalette("Wolf02-a (shadow)", [wolf] + rest) == Success(wolf)
  {
    CanonicalWolf();
    StemHeadWins("Wolf02-a (shadow)", wolf, rest);
  }

  /** A name whose stem is empty (one that starts with a space or a hyphen,
      or with nothing but digits before one) takes the first palette. */
  lemma EmptyStemTakesFirst(name: string, ps: seq<Palette>)
    requires CanonicalName(name) == "" && |ps| > 0
    ensures FindBestPalette(name, ps) == Success(ps[0])
  {
    assert StartsWith(ps[0].name, "");
  }

  /** A list holding only `Bright1` always resolves to it, whatever the
      sprite's name. */
  lemma OnlyBright(name: string, bright: Palette)
    requires bright.name == FALLBACK
    ensures FindBestPalette(name, [bright]) == Success(bright)
  {
  }
}
