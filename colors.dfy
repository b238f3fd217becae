/** Coloured console text (`fclrprint` and `COLOR_MAP_DICT`): the text wrapped in an ANSI
    "select graphic rendition" escape for the chosen colour and a reset escape after it. */
module ColorPrint {
  import opened Decimal
  import opened Wrappers

  const Red: nat := 91
  const Green: nat := 92
  const Yellow: nat := 93
  const LightBlue: nat := 94
  const Purple: nat := 35
  const Cyan: nat := 36

  /** The one-letter colour names and their terminal colour codes. */
  const ColorMap: map<string, nat> :=
    map["r" := Red, "g" := Green, "y" := Yellow, "b" := LightBlue, "p" := Purple, "c" := Cyan]

  /** The escape character, `'\033'`. */
  const Esc: char := '\U{1B}'

  /** The escape that restores the default colour, `'\033[0m'`. */
  const Reset: string := [Esc, '[', '0', 'm']

  /** The colour code `fclrprint` uses for `colorStr`: its entry in the colour map, or yellow. */
  function ColorCode(colorStr: string): (code: nat)
    ensures colorStr in ColorMap ==> code == ColorMap[colorStr]
    ensures colorStr !in ColorMap ==> code == Yellow
    ensures code in ColorMap.Values && 10 <= code < 100
  {
    assert ColorMap["y"] == Yellow;
    if colorStr in ColorMap then ColorMap[colorStr] else Yellow
  }

  /** The text `fclrprint` prints: `'\033[%sm' % color + fstring + '\033[0m'`. */
  function Colored(fstring: string, colorStr: string := "y"): (r: string)
    ensures |r| == |fstring| + 9
    ensures r[..2] == [Esc, '['] && r[4] == 'm' && r[|r| - 4..] == Reset
    ensures AllDigits(r[2..4]) && ParseNat(r[2..4]) == ColorCode(colorStr)
    ensures r[5..|r| - 4] == fstring
  {
    var code := ColorCode(colorStr);
    var digits := NatToStr(code);
    assert |digits| == 2 by { assert |NatToStr(code / 10)| == 1; }
    ParseNatToStr(code);
    var r := [Esc, '['] + digits + "m" + fstring + Reset;
    assert r[2..4] == digits;
    r
  }

  /** Splits a coloured text back into its colour code and its text, when it has that shape. */
  function Uncolor(r: string): (res: Option<(nat, string)>)
    ensures res.Some? ==> |r| >= 9 && r[..2] == [Esc, '['] && r[|r| - 4..] == Reset
  {
    if |r| >= 9 && r[..2] == [Esc, '['] && AllDigits(r[2..4]) && r[4] == 'm' && r[|r| - 4..] == Reset
    then Some((ParseNat(r[2..4]), r[5..|r| - 4]))
    else None
  }

  /** The colour code and the text can be read back from what `fclrprint` prints. */
  lemma UncolorColored(fstring: string, colorStr: string)
    ensures Uncolor(Colored(fstring, colorStr)) == Some((ColorCode(colorStr), fstring))
  {
  }

  /** Two colour names that print any text the same are names of the same colour. */
  lemma ColoredDeterminesCode(f: string, c1: string, c2: string)
    requires Colored(f, c1) == Colored(f, c2)
    ensures ColorCode(c1) == ColorCode(c2)
  {
    UncolorColored(f, c1);
    UncolorColored(f, c2);
  }

  lemma Examples()
    ensures Colored("ok", "g") == "\U{1B}[92mok\U{1B}[0m"
    ensures Colored("ok") == Colored("ok", "x") == "\U{1B}[93mok\U{1B}[0m"
  {
  }
}
