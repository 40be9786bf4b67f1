/**
 * Translation of raw input events into headings: the keyboard table and the
 * swipe classifier. Both are pure lookups; the engine decides what to do with
 * the heading they produce.
 */
module Input {
  import opened Wrappers
  import opened Grid

  /** Minimum displacement along the dominant axis for a swipe to count. */
  const SwipeThreshold: int := 30

  /** The keyboard table: arrow keys, and w/a/s/d in either case. */
  const KeyMap: map<string, Direction> := map[
    "ArrowUp" := Up, "ArrowDown" := Down, "ArrowLeft" := Left, "ArrowRight" := Right,
    "w" := Up, "W" := Up, "a" := Left, "A" := Left,
    "s" := Down, "S" := Down, "d" := Right, "D" := Right
  ]

  /**
   * The same twelve keys grouped by heading. KeyMap is the table as the
   * game looks keys up; this second, independent listing is the reference
   * that KeyDirection's contract checks it against, so a key dropped from or
   * mapped wrongly in either one would fail that proof.
   */
  function KeysFor(d: Direction): set<string> {
    match d
    case Up => {"ArrowUp", "w", "W"}
    case Down => {"ArrowDown", "s", "S"}
    case Left => {"ArrowLeft", "a", "A"}
    case Right => {"ArrowRight", "d", "D"}
  }

  /** The heading a key name selects, or None for a key the game ignores. */
  function KeyDirection(key: string): (r: Option<Direction>)
    ensures forall d :: r == Some(d) <==> key in KeysFor(d)
    ensures r == None <==> key !in KeysFor(Up) + KeysFor(Down) + KeysFor(Left) + KeysFor(Right)
  {
    if key in KeyMap then Some(KeyMap[key]) else None
  }

  /** Full key name of the arrow key for each heading. */
  function ArrowName(d: Direction): string {
    match d
    case Up => "ArrowUp"
    case Down => "ArrowDown"
    case Left => "ArrowLeft"
    case Right => "ArrowRight"
  }

  /** Each arrow key selects its own heading. */
  lemma ArrowKeySelects(d: Direction)
    ensures KeyDirection(ArrowName(d)) == Some(d)
  {
  }

  function UpperCase(c: char): char
    requires 'a' <= c <= 'z'
  {
    (c as int - 32) as char
  }

  /** Letter keys are read without regard to case. */
  lemma LetterCaseIgnored(c: char)
    requires 'a' <= c <= 'z'
    ensures KeyDirection([c]) == KeyDirection([UpperCase(c)])
  {
  }

  function Abs(n: int): nat {
    if n < 0 then -n else n
  }

  /**
   * Classifies a swipe by its displacement (dx, dy): the dominant axis must
   * strictly win and exceed the threshold; the sign picks the heading.
   */
  function SwipeDirection(dx: int, dy: int): (r: Option<Direction>)
    ensures (r.Some? && !Vertical(r.value)) <==> Abs(dx) > Abs(dy) && Abs(dx) > SwipeThreshold
    ensures (r.Some? && Vertical(r.value)) <==> Abs(dy) > Abs(dx) && Abs(dy) > SwipeThreshold
    ensures r == Some(Right) ==> dx > 0
    ensures r == Some(Left) ==> dx < 0
    ensures r == Some(Down) ==> dy > 0
    ensures r == Some(Up) ==> dy < 0
  {
    if Abs(dx) > Abs(dy) && Abs(dx) > SwipeThreshold then
      Some(if dx > 0 then Right else Left)
    else if Abs(dy) > Abs(dx) && Abs(dy) > SwipeThreshold then
      Some(if dy > 0 then Down else Up)
    else
      None
  }

  /** A swipe along the diagonal selects nothing. */
  lemma SwipeTieIgnored(dx: int, dy: int)
    requires Abs(dx) == Abs(dy)
    ensures SwipeDirection(dx, dy) == None
  {
  }

  /** The reverse gesture selects the opposite heading. */
  lemma SwipeReversed(dx: int, dy: int)
    ensures SwipeDirection(-dx, -dy) ==
      match SwipeDirection(dx, dy)
      case None => None
      case Some(d) => Some(Opposite(d))
  {
  }
}
