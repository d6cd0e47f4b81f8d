/**
 * The four-band colouring of the satisfaction tables
 * (`color_coding_change_flag_2`), applied to every cell by the styler: red
 * below 25, orange below 50, yellow below 75, green from 75 up, and no colour
 * for None, the empty string, negative numbers and NaN.
 */
module Colour {
  import opened Wrappers
  import opened Frames
  import opened Indicator

  /** A cell handed to the styler: None, the empty string, a number, or NaN (an item missing in some year). */
  datatype Shown = NoneValue | EmptyText | Number(x: real) | NotANumber

  datatype Band = Red | Orange | Yellow | Green

  /** `val >= c`: false whenever `val` is NaN. */
  predicate AtLeast(v: Shown, c: real)
    requires v.Number? || v.NotANumber?
  {
    v.Number? && v.x >= c
  }

  /** `val < c`: false whenever `val` is NaN. */
  predicate Below(v: Shown, c: real)
    requires v.Number? || v.NotANumber?
  {
    v.Number? && v.x < c
  }

  /** The colour chosen by the chain of comparisons, `None` when every test fails. */
  function ColourOf(v: Shown): Option<Band> {
    if v.NoneValue? || v.EmptyText? then None
    else if AtLeast(v, 0.0) && Below(v, 25.0) then Some(Red)
    else if AtLeast(v, 25.0) && Below(v, 50.0) then Some(Orange)
    else if AtLeast(v, 50.0) && Below(v, 75.0) then Some(Yellow)
    else if AtLeast(v, 75.0) then Some(Green)
    else None
  }

  /** Python's rendering of the colour in the f-string: `None` or the colour's name. */
  function ColourName(c: Option<Band>): string {
    match c
    case None => "None"
    case Some(Red) => "red"
    case Some(Orange) => "orange"
    case Some(Yellow) => "yellow"
    case Some(Green) => "green"
  }

  /** The CSS declaration returned for a cell. */
  function Style(v: Shown): (css: string)
    ensures |css| > 18 && css[..18] == "background-color: "
  {
    "background-color: " + ColourName(ColourOf(v))
  }

  /** The bands in order. */
  const Palette: seq<Band> := [Red, Orange, Yellow, Green]

  /** The quarter of the 0-100 scale a non-negative number falls in, counting everything from 75 up as the last. */
  function Quarter(x: real): (q: nat)
    requires x >= 0.0
    ensures q < 4
  {
    var k := (x / 25.0).Floor;
    if k >= 3 then 3 else k
  }

  /**
   * The chain of comparisons picks the colour of the number's quarter: a
   * non-negative number always gets one, a negative number, NaN, None and ''
   * never do.
   */
  lemma {:induction false} ColourIsQuarter(v: Shown)
    ensures v.Number? && v.x >= 0.0 ==> ColourOf(v) == Some(Palette[Quarter(v.x)])
    ensures ColourOf(v).None? <==> !v.Number? || v.x < 0.0
  {
    if v.Number? && v.x >= 0.0 {
      var x := v.x;
      var k := (x / 25.0).Floor;
      assert k as real <= x / 25.0 < k as real + 1.0;
      assert (x / 25.0) * 25.0 == x;
      if x < 25.0 {
        assert k == 0;
      } else if x < 50.0 {
        assert k == 1;
      } else if x < 75.0 {
        assert k == 2;
      } else {
        assert k >= 3;
      }
    }
  }

  /** Position of a colour on the scale; no colour sits below red. */
  function Rank(c: Option<Band>): int {
    match c
    case None => -1
    case Some(Red) => 0
    case Some(Orange) => 1
    case Some(Yellow) => 2
    case Some(Green) => 3
  }

  /** A larger non-negative number never gets a lower band. */
  lemma {:induction false} ColourMonotone(x: real, y: real)
    requires 0.0 <= x <= y
    ensures 0 <= Rank(ColourOf(Number(x))) <= Rank(ColourOf(Number(y)))
  {
    ColourIsQuarter(Number(x));
    ColourIsQuarter(Number(y));
    assert (x / 25.0) <= (y / 25.0);
  }

  /** The declarations of two cells are equal exactly when their colours are: each colour has its own name. */
  lemma {:induction false} StyleDistinguishes(v: Shown, w: Shown)
    ensures Style(v) == Style(w) <==> ColourOf(v) == ColourOf(w)
  {
    var p := "background-color: ";
    if Style(v) == Style(w) {
      assert Style(v)[|p|..] == ColourName(ColourOf(v));
      assert Style(w)[|p|..] == ColourName(ColourOf(w));
    }
  }

  /** Every satisfaction index is coloured: it lies between 0 and 100. */
  lemma {:induction false} IndexIsColoured(col: Column)
    requires IsNumeric(col)
    ensures ColourOf(Number(SatisfactionIndex(col))).Some?
    ensures SatisfactionIndex(col) == 100.0 ==> ColourOf(Number(SatisfactionIndex(col))) == Some(Green)
  {
    ColourIsQuarter(Number(SatisfactionIndex(col)));
  }
}
