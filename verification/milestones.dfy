/** The milestone strip above the headcount chart: each event gets a level
    drawn at random, below the axis for events at even positions and above
    it for odd ones; it is styled as past or future against the current
    day, and its connector starts just off the axis on the level's side. */
module Milestones {

  /** `rng.integers(lo, hi)`: some integer from `lo` up to but excluding
      `hi`. The generator is a source of raw draws; how it turns a draw into
      a value is not modelled, only that every value of the range can come
      out and nothing else can. */
  function Draw(raw: nat, lo: int, hi: int): (v: int)
    requires lo < hi
    ensures lo <= v < hi
  {
    lo + raw % (hi - lo)
  }

  lemma DrawCoversRange(lo: int, hi: int, v: int) returns (raw: nat)
    requires lo <= v < hi
    ensures Draw(raw, lo, hi) == v
  {
    raw := v - lo;
  }

  /** The level of the event at position `i`: from -6 to -3 at an even
      position, from 2 to 5 at an odd one. */
  function Level(i: nat, raw: nat): int {
    if i % 2 == 0 then Draw(raw, -6, -2) else Draw(raw, 2, 6)
  }

  /** The `Level` column: one draw per event, in event order. */
  function AssignLevels(raws: seq<nat>): (levels: seq<int>)
    ensures |levels| == |raws|
    ensures forall i :: 0 <= i < |raws| ==>
              if i % 2 == 0 then -6 <= levels[i] <= -3 else 2 <= levels[i] <= 5
  {
    seq(|raws|, i requires 0 <= i < |raws| => Level(i, raws[i]))
  }

  /** Neighbouring events sit on opposite sides of the axis, the first one
      below it, and no event sits on the axis. */
  lemma LevelsAlternate(raws: seq<nat>)
    ensures var levels := AssignLevels(raws);
            forall i :: 0 <= i < |levels| ==> (levels[i] < 0 <==> i % 2 == 0) && levels[i] != 0
    ensures var levels := AssignLevels(raws);
            forall i :: 0 <= i < |levels| - 1 ==> (levels[i] < 0 <==> levels[i + 1] > 0)
  {
    var levels := AssignLevels(raws);
    forall i | 0 <= i < |levels| - 1
      ensures levels[i] < 0 <==> levels[i + 1] > 0
    {
      assert (i + 1) % 2 == 0 <==> i % 2 != 0;
    }
  }

  /** Every level of a position's range is possible: the layout is not
      narrower than the ranges say. */
  lemma LevelsCoverRange(i: nat, v: int) returns (raw: nat)
    requires if i % 2 == 0 then -6 <= v <= -3 else 2 <= v <= 5
    ensures Level(i, raw) == v
  {
    if i % 2 == 0 {
      raw := DrawCoversRange(-6, -2, v);
    } else {
      raw := DrawCoversRange(2, 6, v);
    }
  }

  /** How an event is drawn: the text colour, the connector and frame
      colour, and the opacity in hundredths for the text and for the
      frame's fill (nine tenths of the text's). */
  datatype Style = Style(text: string, line: string, alphaPercent: nat, boxAlphaPercent: nat)

  const PastStyle: Style := Style("#2c3e50", "#e74c3c", 100, 90)
  const FutureStyle: Style := Style("#7f8c8d", "#95a5a6", 70, 63)

  /** The styling of an event dated `day`: past styling exactly when it is
      not later than `current`, so every later event is drawn fainter than
      any past one; each frame is nine tenths as opaque as its text. */
  function StyleFor(day: int, current: int): (s: Style)
    ensures s == PastStyle <==> day <= current
    ensures s == FutureStyle <==> day > current
    ensures day > current ==> s.alphaPercent < PastStyle.alphaPercent
    ensures s.boxAlphaPercent * 10 == s.alphaPercent * 9
  {
    if day <= current then PastStyle else FutureStyle
  }

  /** Where a connector starts, in tenths of a level: just above the axis
      for a positive level, just below it otherwise. */
  function AnchorTenths(level: int): int {
    if level > 0 then 1 else -1
  }

  /** One annotation of the strip. */
  datatype Annotation = Annotation(day: int, level: int, anchorTenths: int, style: Style)

  /** The annotation loop: one annotation per event, in event order, each
      with its drawn level, its anchor and its styling. */
  function Layout(days: seq<int>, raws: seq<nat>, current: int): (notes: seq<Annotation>)
    requires |raws| == |days|
    ensures |notes| == |days|
  {
    var levels := AssignLevels(raws);
    seq(|days|, i requires 0 <= i < |days| =>
      Annotation(days[i], levels[i], AnchorTenths(levels[i]), StyleFor(days[i], current)))
  }

  /** Every connector runs from the axis to its label without crossing the
      axis: anchor and level lie on the same side of it, and they alternate
      sides from one event to the next. Events up to the current day are
      drawn as past and the others as future. */
  lemma LayoutIsConsistent(days: seq<int>, raws: seq<nat>, current: int)
    requires |raws| == |days|
    ensures var notes := Layout(days, raws, current);
            forall i :: 0 <= i < |notes| ==>
              && notes[i].day == days[i]
              && notes[i].anchorTenths * notes[i].level > 0
              && (notes[i].level > 0 <==> i % 2 == 1)
              && (notes[i].style == PastStyle <==> days[i] <= current)
  {
    LevelsAlternate(raws);
  }
}
