/**
 * Constants and pure arithmetic of the four-paddle Pong arena: paddle
 * geometry, launch velocities, the rebound-speed bands, where a served ball
 * is parked, the movement clamps and the paddle collision span.
 */
module PongRules {

  type ClientId = int

  /** The four paddle slots: Pad1 (right) and Pad2 (left) move vertically,
   *  Pad3 (top) and Pad4 (bottom) move horizontally. */
  datatype PadId = Pad1 | Pad2 | Pad3 | Pad4

  /** The order in which slots are handed out (insertion order of the field table). */
  const PadOrder: seq<PadId> := [Pad1, Pad2, Pad3, Pad4]

  const AllPads: set<PadId> := {Pad1, Pad2, Pad3, Pad4}

  const PadWidth := 80
  const PadHeight := 10
  const BallSpeed := 10
  /** Paddle step per key press (the vertical and the horizontal step are both 15). */
  const PadStep := 15
  const FieldSize := 400

  /** Paddle clamp along its axis of motion: [8, 330]. */
  const PadMin := 8
  const PadMax := FieldSize - PadWidth + 10
  /** Clamp of a ball carried by its serving paddle: [45, 365]. */
  const BallMin := PadWidth / 2 + 5
  const BallMax := FieldSize - PadWidth / 2 + 5

  /** Border lines: a ball at or beyond them meets the facing paddle or its wall. */
  const LowBorder := 10
  const HighBorder := 390

  /** A paddle's collision span is its width plus this tolerance. */
  const Tolerance := 10

  datatype Option<T> = None | Some(value: T)

  /** A table with one entry per paddle slot (the per-pad dictionaries of the server). */
  datatype PadTable<T> = PadTable(pad1: T, pad2: T, pad3: T, pad4: T) {
    function Get(p: PadId): T {
      match p
      case Pad1 => pad1
      case Pad2 => pad2
      case Pad3 => pad3
      case Pad4 => pad4
    }

    function Set(p: PadId, v: T): (t: PadTable<T>)
      ensures t.Get(p) == v
      ensures forall q: PadId :: q != p ==> t.Get(q) == Get(q)
    {
      match p
      case Pad1 => this.(pad1 := v)
      case Pad2 => this.(pad2 := v)
      case Pad3 => this.(pad3 := v)
      case Pad4 => this.(pad4 := v)
    }
  }

  function Uniform<T>(v: T): PadTable<T> {
    PadTable(v, v, v, v)
  }

  datatype Position = Position(left: int, top: int)

  /** A paddle as the field table shows it: where it is and whether a player holds the slot. */
  datatype PadState = PadState(left: int, top: int, active: bool)

  function PosOf(s: PadState): Position {
    Position(s.left, s.top)
  }

  /** The arrow keys a client can send. */
  datatype Key = ArrowUp | ArrowDown | ArrowLeft | ArrowRight

  /** A client's inbound text, decoded: a move, a serve (`Enter`), a score reset, or anything else. */
  datatype Command = Move(key: Key) | Serve | ResetScores | Unrecognised

  function ParseCommand(data: string): Command {
    if data == "ArrowUp" then Move(ArrowUp)
    else if data == "ArrowDown" then Move(ArrowDown)
    else if data == "ArrowLeft" then Move(ArrowLeft)
    else if data == "ArrowRight" then Move(ArrowRight)
    else if data == "Enter" then Serve
    else if data == "Reset" then ResetScores
    else Unrecognised
  }

  /** The text a client sends for a recognised command. */
  function CommandText(c: Command): string
    requires c != Unrecognised
  {
    match c
    case Move(k) =>
      (match k
       case ArrowUp => "ArrowUp"
       case ArrowDown => "ArrowDown"
       case ArrowLeft => "ArrowLeft"
       case ArrowRight => "ArrowRight")
    case Serve => "Enter"
    case ResetScores => "Reset"
  }

  /** Every recognised command is decoded from its own text. */
  lemma ParseCommandText(c: Command)
    requires c != Unrecognised
    ensures ParseCommand(CommandText(c)) == c
  {
  }

  /** Only the six command texts are recognised; every other text is ignored. */
  lemma ParseCommandRecognised(data: string)
    ensures ParseCommand(data) == Unrecognised <==>
              data !in {"ArrowUp", "ArrowDown", "ArrowLeft", "ArrowRight", "Enter", "Reset"}
    ensures ParseCommand(data) != Unrecognised ==> CommandText(ParseCommand(data)) == data
  {
  }

  /** Ball velocity, written (top, left) as in the server. */
  datatype Velocity = Velocity(top: int, left: int)

  const Still := Velocity(0, 0)

  /** Pad1 and Pad2 stand on the left/right walls and slide along `top`. */
  predicate IsSidePad(p: PadId) {
    p == Pad1 || p == Pad2
  }

  function DefaultPosition(p: PadId): Position {
    match p
    case Pad1 => Position(399, 158)
    case Pad2 => Position(9, 158)
    case Pad3 => Position(158, 9)
    case Pad4 => Position(158, 400)
  }

  /** Start position of the ball: in front of Pad1 at its default place (193 = 158 + 40 - 5). */
  const BallDefault := Position(389, 158 + PadWidth / 2 - 5)

  /** A paddle is on its rail when its fixed coordinate is that of its wall and
   *  its moving coordinate lies inside the movement clamp. */
  predicate OnRail(p: PadId, pos: Position) {
    if IsSidePad(p) then
      pos.left == DefaultPosition(p).left && PadMin <= pos.top <= PadMax
    else
      pos.top == DefaultPosition(p).top && PadMin <= pos.left <= PadMax
  }

  /** The coordinate a paddle slides along. */
  function Slide(p: PadId, pos: Position): int {
    if IsSidePad(p) then pos.top else pos.left
  }

  /** The coordinate across a paddle's axis of motion. */
  function Fixed(p: PadId, pos: Position): int {
    if IsSidePad(p) then pos.left else pos.top
  }

  function Abs(x: int): nat {
    if x < 0 then -x else x
  }

  /** Python's `int(a / b)`: a quotient truncated toward zero. */
  function TruncDiv(a: int, b: int): (q: int)
    requires b > 0
    ensures Abs(q) == Abs(a) / b
    ensures a < 0 ==> q <= 0
    ensures a >= 0 ==> q >= 0
  {
    if a >= 0 then a / b else -((-a) / b)
  }

  /** Direction of travel away from a serving paddle along its facing axis. */
  function AwaySign(p: PadId): int {
    match p
    case Pad1 => -1
    case Pad2 => 1
    case Pad3 => 1
    case Pad4 => -1
  }

  /** The velocity component perpendicular to a paddle's wall (towards or away from it). */
  function Along(p: PadId, v: Velocity): int {
    if IsSidePad(p) then v.left else v.top
  }

  /** The velocity component parallel to a paddle's wall. */
  function Across(p: PadId, v: Velocity): int {
    if IsSidePad(p) then v.top else v.left
  }

  /**
   * Launch velocity of a ball served by `p` with `n` open connections: an
   * axis-aligned speed of `10 / n` away from the paddle. A launch forced by
   * a disconnect adds 1 to both components.
   */
  function Launch(p: PadId, n: int, disconnect: bool): (v: Velocity)
    requires n >= 1
    ensures Along(p, v) == AwaySign(p) * (BallSpeed / n) + (if disconnect then 1 else 0)
    ensures Across(p, v) == if disconnect then 1 else 0
  {
    var base := match p
      case Pad1 => Velocity(0, TruncDiv(-BallSpeed, n))
      case Pad2 => Velocity(0, TruncDiv(BallSpeed, n))
      case Pad3 => Velocity(TruncDiv(BallSpeed, n), 0)
      case Pad4 => Velocity(TruncDiv(-BallSpeed, n), 0);
    if disconnect then Velocity(base.top + 1, base.left + 1) else base
  }

  /** The velocity with component `along` perpendicular to `p`'s wall and `across` parallel to it. */
  function WithParts(p: PadId, along: int, across: int): (v: Velocity)
    ensures Along(p, v) == along && Across(p, v) == across
  {
    if IsSidePad(p) then Velocity(across, along) else Velocity(along, across)
  }

  /** Reflect the velocity component perpendicular to `p`'s wall. */
  function Reflect(p: PadId, v: Velocity): (r: Velocity)
    ensures Along(p, r) == -Along(p, v) && Across(p, r) == Across(p, v)
  {
    if IsSidePad(p) then v.(left := v.left * -1) else v.(top := v.top * -1)
  }

  /**
   * New parallel speed component after a paddle hit. `slide` is the paddle's
   * moving coordinate, `ball` the ball's coordinate on the same axis, `n` the
   * connection count and `current` the component before the hit. The
   * distance from the paddle centre (slide + 40) selects one of three bands
   * bounded by 80/5 and 80/3; a distance of exactly 16 falls in none of them
   * and keeps the current magnitude. The side paddles add 1 to the band speed.
   */
  function Rebound(p: PadId, slide: int, ball: int, n: int, current: int): (r: int)
    requires n >= 1
    ensures var diff := Abs(slide + 40 - ball);
            var bonus := if IsSidePad(p) then 1 else 0;
            (diff < 16 ==> Abs(r) == 4 / n + bonus) &&
            (16 < diff <= 26 ==> Abs(r) == 8 / n + bonus) &&
            (diff >= 27 ==> Abs(r) == 10 / n + bonus) &&
            (diff == 16 ==> Abs(r) == Abs(current))
    ensures Abs(slide + 40 - ball) != 16 ==>
              (slide + 40 >= ball ==> r <= 0) && (slide + 40 < ball ==> r >= 0)
    ensures Abs(slide + 40 - ball) == 16 ==>
              r == if slide + 40 >= ball then -current else current
  {
    var centre := slide + PadWidth / 2;
    var diff := Abs(centre - ball);
    assert 0 <= 4 / n && 0 <= 8 / n && 0 <= 10 / n by { DivisionNonNegative(n); }
    var bonus := if IsSidePad(p) then 1 else 0;
    var magnitude :=
      if 5 * diff < PadWidth then 4 / n + bonus
      else if PadWidth < 5 * diff && 3 * diff < PadWidth then 8 / n + bonus
      else if 3 * diff > PadWidth then 10 / n + bonus
      else current;
    if centre - ball >= 0 then magnitude * -1 else magnitude
  }

  lemma DivisionNonNegative(n: int)
    requires n >= 1
    ensures 0 <= 4 / n && 0 <= 8 / n && 0 <= 10 / n
  {
  }

  /** Whether a ball coordinate lies in the collision span [slide, slide + 90] of a paddle. */
  predicate Collides(slide: int, ball: int) {
    slide <= ball <= slide + PadWidth + Tolerance
  }

  /**
   * Where a scored-against paddle at `pad` parks the ball for its serve:
   * centred on the paddle's span (35 along it) and one paddle thickness in
   * front of it, 11 for the bottom paddle.
   */
  function ServeSpot(p: PadId, pad: Position): (b: Position)
    ensures Slide(p, b) == Slide(p, pad) + ServeOffset
    ensures Collides(Slide(p, pad), Slide(p, b))
    ensures match p
            case Pad1 => b.left == pad.left - PadHeight
            case Pad2 => b.left == pad.left + PadHeight
            case Pad3 => b.top == pad.top + PadHeight
            case Pad4 => b.top == pad.top - PadHeight - 1
  {
    var shiftTop := if IsSidePad(p) then PadWidth / 2 - 5 else PadHeight;
    var shiftLeft := if IsSidePad(p) then PadHeight else PadWidth / 2 - 5;
    var shiftLeft' := if p == Pad1 then shiftLeft * -1 else shiftLeft;
    var shiftTop' := if p == Pad4 then shiftTop * -1 - 1 else shiftTop;
    Position(pad.left + shiftLeft', pad.top + shiftTop')
  }

  /** A position strictly inside all four border lines. */
  predicate Inside(b: Position) {
    LowBorder < b.left < HighBorder && LowBorder < b.top < HighBorder
  }

  /** Distance along the paddle from its start to a ball it serves: 35. */
  const ServeOffset := PadWidth / 2 - 5

  /**
   * A ball held by `p` at `pad`: on the paddle's serving line, and 35 to 37
   * along the paddle from its start. The slack of 2 comes from the carried
   * ball stopping at 45 while the paddle stops at 8.
   */
  predicate InFront(p: PadId, pad: Position, b: Position) {
    Fixed(p, b) == Fixed(p, ServeSpot(p, pad)) &&
    Slide(p, pad) + ServeOffset <= Slide(p, b) <= Slide(p, pad) + BallMin - PadMin
  }

  lemma ServeSpotInFront(p: PadId, pad: Position)
    ensures InFront(p, pad, ServeSpot(p, pad))
  {
  }

  /** A ball held in front of a paddle on its rail touches no border line. */
  lemma InFrontInside(p: PadId, pad: Position, b: Position)
    requires OnRail(p, pad) && InFront(p, pad, b)
    ensures Inside(b)
  {
  }

  /** Step down an axis by one paddle step, stopping at `floor`. */
  function StepBack(c: int, floor: int): (r: int)
    ensures r >= floor
    ensures c - PadStep >= floor ==> r == c - PadStep
    ensures c - PadStep < floor ==> r == floor
  {
    if c - PadStep <= floor then floor else c - PadStep
  }

  /** Step up an axis by one paddle step, stopping at `ceiling`. */
  function StepForward(c: int, ceiling: int): (r: int)
    ensures r <= ceiling
    ensures c + PadStep <= ceiling ==> r == c + PadStep
    ensures c + PadStep > ceiling ==> r == ceiling
  {
    if c + PadStep >= ceiling then ceiling else c + PadStep
  }

  /**
   * Stepping a paddle at `slide` and the ball it carries at `c` together
   * keeps the ball 35 to 37 along the paddle; both bounds are reached.
   */
  lemma CarryKeepsOffset(slide: int, c: int)
    requires PadMin <= slide <= PadMax
    requires slide + ServeOffset <= c <= slide + BallMin - PadMin
    ensures StepBack(slide, PadMin) + ServeOffset <= StepBack(c, BallMin) <= StepBack(slide, PadMin) + BallMin - PadMin
    ensures StepForward(slide, PadMax) + ServeOffset <= StepForward(c, BallMax) <= StepForward(slide, PadMax) + BallMin - PadMin
  {
  }

  /** At the top clamp the carried ball ends 37, not 35, from the paddle start; at the bottom clamp 35 again. */
  lemma CarryOffsetExtremes()
    ensures StepBack(23, PadMin) == 8 && StepBack(23 + ServeOffset, BallMin) == 8 + 37
    ensures StepForward(323, PadMax) == 330 && StepForward(323 + 37, BallMax) == 330 + ServeOffset
  {
  }

  /** A paddle that starts inside its clamp stays inside after any step. */
  lemma StepsKeepPadOnRail(c: int)
    requires PadMin <= c <= PadMax
    ensures PadMin <= StepBack(c, PadMin) <= PadMax
    ensures PadMin <= StepForward(c, PadMax) <= PadMax
  {
  }

  /** Position of a slot in `PadOrder`. */
  function Rank(p: PadId): nat {
    match p
    case Pad1 => 0
    case Pad2 => 1
    case Pad3 => 2
    case Pad4 => 3
  }

  /**
   * The first slot of `PadOrder[i..]` that is not active, given the state
   * of every slot.
   */
  function FirstInactive(pads: PadTable<PadState>, i: nat): (r: PadId)
    requires i < |PadOrder|
    requires exists j :: i <= j < |PadOrder| && !pads.Get(PadOrder[j]).active
    ensures !pads.Get(r).active
    ensures i <= Rank(r)
    ensures forall q: PadId :: i <= Rank(q) < Rank(r) ==> pads.Get(q).active
    decreases |PadOrder| - i
  {
    if !pads.Get(PadOrder[i]).active then PadOrder[i] else FirstInactive(pads, i + 1)
  }

  /** The scan in slot order stops at the first idle slot: the one whose predecessors are all active. */
  lemma {:induction false} FirstInactiveAt(pads: PadTable<PadState>, k: nat, i: nat)
    requires k <= i < |PadOrder|
    requires !pads.Get(PadOrder[i]).active
    requires forall j :: k <= j < i ==> pads.Get(PadOrder[j]).active
    ensures FirstInactive(pads, k) == PadOrder[i]
    decreases i - k
  {
    if k < i {
      FirstInactiveAt(pads, k + 1, i);
    }
  }
}
