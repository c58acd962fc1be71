/**
 * The arena as a value: the field table (paddles and ball), the system table
 * (who holds the ball, ball velocity, last touch, score) and the player
 * registry. Each server operation is a function from the old arena to the
 * new one; the lemmas state what the operations promise and that they keep
 * the arena's invariant.
 */
module PongWorld {
  import opened PongRules

  datatype World = World(
    pads: PadTable<PadState>,        // field table: paddle positions and activity
    withBall: PadTable<bool>,        // which paddle holds the ball for its serve
    ball: Position,                  // field table: ball position
    speed: Velocity,                 // ball velocity
    lastTouch: PadId,                // paddle credited with the next point
    score: PadTable<nat>,            // score table
    players: map<ClientId, PadId>)   // client id -> paddle slot

  predicate PadsOnRail(w: World) {
    forall p: PadId :: OnRail(p, PosOf(w.pads.Get(p)))
  }

  predicate AtMostOneHolder(w: World) {
    forall p: PadId, q: PadId :: w.withBall.Get(p) && w.withBall.Get(q) ==> p == q
  }

  predicate NoHolder(w: World) {
    forall p: PadId :: !w.withBall.Get(p)
  }

  /** `p` and only `p` holds the ball. */
  predicate SoleHolder(w: World, p: PadId) {
    forall q: PadId :: w.withBall.Get(q) <==> q == p
  }

  /** A ball held for a serve is at rest in front of the paddle holding it. */
  predicate HeldBallParked(w: World) {
    forall p: PadId :: w.withBall.Get(p) ==> w.speed == Still && InFront(p, PosOf(w.pads.Get(p)), w.ball)
  }

  /** Registered clients hold distinct slots, and the held slots are exactly the active paddles. */
  predicate Registry(w: World) {
    Injective(w.players) &&
    (forall p: PadId :: w.pads.Get(p).active <==> p in w.players.Values)
  }

  predicate Inv(w: World) {
    PadsOnRail(w) && AtMostOneHolder(w) && HeldBallParked(w) && Registry(w)
  }

  function Home(p: PadId): PadState {
    PadState(DefaultPosition(p).left, DefaultPosition(p).top, false)
  }

  /** The arena at process start: all paddles idle at home, Pad1 holding the ball. */
  function Initial(): World {
    World(
      PadTable(Home(Pad1), Home(Pad2), Home(Pad3), Home(Pad4)),
      PadTable(true, false, false, false),
      BallDefault,
      Still,
      Pad1,
      Uniform(0),
      map[])
  }

  lemma InitialInv()
    ensures Inv(Initial())
    ensures SoleHolder(Initial(), Pad1)
  {
  }

  // ---------------------------------------------------------------------------
  // Slot registry
  // ---------------------------------------------------------------------------

  /** With fewer than four registered players some paddle is idle. */
  lemma FreeSlotExists(w: World)
    requires Inv(w) && |w.players| < 4
    ensures exists j :: 0 <= j < |PadOrder| && !w.pads.Get(PadOrder[j]).active
  {
    if forall j :: 0 <= j < |PadOrder| ==> w.pads.Get(PadOrder[j]).active {
      assert w.pads.Get(PadOrder[0]).active && w.pads.Get(PadOrder[1]).active;
      assert w.pads.Get(PadOrder[2]).active && w.pads.Get(PadOrder[3]).active;
      assert AllPads <= w.players.Values;
      SubsetCard(AllPads, w.players.Values);
      assert false;
    }
  }

  lemma {:induction false} SubsetCard<T>(a: set<T>, b: set<T>)
    requires a <= b
    ensures |a| <= |b|
    decreases a
  {
    if a != {} {
      var x :| x in a;
      SubsetCard(a - {x}, b - {x});
    }
  }

  /** crete_pad: register `client` on the first idle slot in the order Pad1..Pad4. */
  function CreatePad(w: World, client: ClientId): (World, PadId)
    requires Inv(w) && client !in w.players && |w.players| < 4
  {
    FreeSlotExists(w);
    var slot := FirstInactive(w.pads, 0);
    (w.(players := w.players[client := slot],
        pads := w.pads.Set(slot, w.pads.Get(slot).(active := true))),
     slot)
  }

  /** The new player gets the lowest idle slot, which becomes active; nothing else changes. */
  lemma CreatePadTakesLowestFree(w: World, client: ClientId)
    requires Inv(w) && client !in w.players && |w.players| < 4
    ensures var (w', slot) := CreatePad(w, client);
            !w.pads.Get(slot).active &&
            (forall q: PadId :: Rank(q) < Rank(slot) ==> w.pads.Get(q).active) &&
            w'.players == w.players[client := slot] &&
            w'.pads.Get(slot) == w.pads.Get(slot).(active := true) &&
            (forall q: PadId :: q != slot ==> w'.pads.Get(q) == w.pads.Get(q)) &&
            w'.withBall == w.withBall && w'.ball == w.ball && w'.speed == w.speed &&
            w'.score == w.score && w'.lastTouch == w.lastTouch
  {
  }

  lemma CreatePadInv(w: World, client: ClientId)
    requires Inv(w) && client !in w.players && |w.players| < 4
    ensures Inv(CreatePad(w, client).0)
  {
    var (w', slot) := CreatePad(w, client);
    ValuesAfterAdd(w.players, client, slot);
    assert Registry(w');
  }

  /** Injective maps: no value is stored under two keys. */
  predicate Injective<K, V(==)>(m: map<K, V>) {
    forall c, d :: c in m && d in m && m[c] == m[d] ==> c == d
  }

  lemma ValuesAfterAdd<K, V>(m: map<K, V>, k: K, v: V)
    requires k !in m
    ensures m[k := v].Values == m.Values + {v}
  {
    var m' := m[k := v];
    forall x | x in m'.Values ensures x in m.Values + {v} {
      var c :| c in m' && m'[c] == x;
      if c != k { assert c in m && m[c] == x; }
    }
    forall x | x in m.Values + {v} ensures x in m'.Values {
      if x != v {
        var c :| c in m && m[c] == x;
        assert c in m' && m'[c] == x;
      } else {
        assert k in m' && m'[k] == x;
      }
    }
  }

  lemma ValuesAfterRemove<K, V>(m: map<K, V>, k: K)
    requires Injective(m) && k in m
    ensures (m - {k}).Values == m.Values - {m[k]}
  {
    var m' := m - {k};
    forall x | x in m'.Values ensures x in m.Values - {m[k]} {
      var c :| c in m' && m'[c] == x;
      assert c in m && m[c] == x && c != k;
    }
    forall x | x in m.Values - {m[k]} ensures x in m'.Values {
      var c :| c in m && m[c] == x;
      assert c != k && c in m' && m'[c] == x;
    }
  }

  /**
   * Admission of a connecting client: a spectator (no slot) when four
   * players are registered, otherwise crete_pad.
   */
  function Join(w: World, client: ClientId): (World, Option<PadId>)
    requires Inv(w) && (client !in w.players || |w.players| >= 4)
  {
    if |w.players| >= 4 then (w, None)
    else var (w', slot) := CreatePad(w, client); (w', Some(slot))
  }

  /** A fifth client never displaces anyone; below capacity the client is seated. */
  lemma JoinCapacity(w: World, client: ClientId)
    requires Inv(w) && (client !in w.players || |w.players| >= 4)
    ensures Inv(Join(w, client).0)
    ensures |w.players| >= 4 <==> Join(w, client).1 == None
    ensures |w.players| >= 4 ==> Join(w, client).0 == w
    ensures |w.players| < 4 ==> |Join(w, client).0.players| == |w.players| + 1
    ensures |w.players| < 4 ==> Join(w, client) == (CreatePad(w, client).0, Some(CreatePad(w, client).1))
    ensures |w.players| < 4 ==>
              Join(w, client).1.Some? &&
              var s := Join(w, client).1.value;
              !w.pads.Get(s).active && (forall q: PadId :: Rank(q) < Rank(s) ==> w.pads.Get(q).active) &&
              Join(w, client).0.players == w.players[client := s]
  {
    if |w.players| < 4 {
      CreatePadInv(w, client);
    }
  }

  // ---------------------------------------------------------------------------
  // Serve and release
  // ---------------------------------------------------------------------------

  /** kick_ball: the client's paddle lets go of the ball and launches it. */
  function Kick(w: World, client: ClientId, n: int, disconnect: bool): World
    requires client in w.players && n >= 1
  {
    var p := w.players[client];
    w.(withBall := w.withBall.Set(p, false), speed := Launch(p, n, disconnect))
  }

  /** A serve by the holder leaves nobody holding the ball and keeps the invariant. */
  lemma KickInv(w: World, client: ClientId, n: int, disconnect: bool)
    requires Inv(w) && client in w.players && n >= 1
    requires w.withBall.Get(w.players[client])
    ensures Inv(Kick(w, client, n, disconnect))
    ensures NoHolder(Kick(w, client, n, disconnect))
    ensures var w' := Kick(w, client, n, disconnect);
            w'.speed == Launch(w.players[client], n, disconnect) &&
            w'.ball == w.ball && w'.pads == w.pads && w'.players == w.players &&
            w'.score == w.score && w'.lastTouch == w.lastTouch
  {
  }

  /** A forced launch moves the ball off its serving line by exactly 1 per tick. */
  lemma DisconnectLaunchSidestep(p: PadId, n: int)
    requires n >= 1
    ensures Across(p, Launch(p, n, true)) == 1
    ensures Along(p, Launch(p, n, true)) == AwaySign(p) * (BallSpeed / n) + 1
  {
  }

  /**
   * A forced launch leaves no speed towards or away from the serving wall
   * exactly for the paddles that serve in the negative direction (Pad1, Pad4)
   * when 6 to 10 connections are open.
   */
  lemma DisconnectLaunchStallsAlongAxis(p: PadId, n: int)
    requires n >= 1
    ensures Along(p, Launch(p, n, true)) == 0 <==> (p == Pad1 || p == Pad4) && 6 <= n <= 10
  {
    if 6 <= n <= 10 {
      assert BallSpeed / n == 1;
    } else if n < 6 {
      assert BallSpeed / n >= 1;
      if n <= 5 { assert BallSpeed / n >= 2; }
    } else {
      assert BallSpeed / n == 0;
    }
  }

  /** pad_remove: launch the ball if this paddle held it, send the paddle home idle, drop the client. */
  function PadRemove(w: World, client: ClientId, n: int): World
    requires client in w.players && n >= 1
  {
    var p := w.players[client];
    var w1 := if w.withBall.Get(p) then Kick(w, client, n, true) else w;
    var home := DefaultPosition(p);
    w1.(pads := w1.pads.Set(p, PadState(home.left, home.top, false)),
        players := w1.players - {client})
  }

  /** What a release changes, and that it keeps the invariant. */
  lemma PadRemoveReleases(w: World, client: ClientId, n: int)
    requires Inv(w) && client in w.players && n >= 1
    ensures var p := w.players[client];
            var w' := PadRemove(w, client, n);
            Inv(w') &&
            w'.pads.Get(p) == PadState(DefaultPosition(p).left, DefaultPosition(p).top, false) &&
            (forall q: PadId :: q != p ==> w'.pads.Get(q) == w.pads.Get(q)) &&
            w'.players == w.players - {client} &&
            p !in w'.players.Values &&
            w'.ball == w.ball && w'.score == w.score && w'.lastTouch == w.lastTouch &&
            (w.withBall.Get(p) ==> w'.speed == Launch(p, n, true) && NoHolder(w')) &&
            (!w.withBall.Get(p) ==> w'.speed == w.speed && w'.withBall == w.withBall)
  {
    ValuesAfterRemove(w.players, client);
  }

  /** ConnectionManager.disconnect: release the slot of a registered client; a spectator leaves nothing behind. */
  function Disconnect(w: World, client: ClientId, n: int): World
    requires n >= 1
  {
    if client in w.players then PadRemove(w, client, n) else w
  }

  lemma DisconnectInv(w: World, client: ClientId, n: int)
    requires Inv(w) && n >= 1
    ensures Inv(Disconnect(w, client, n))
    ensures client !in Disconnect(w, client, n).players
    ensures client !in w.players ==> Disconnect(w, client, n) == w
    ensures client in w.players ==> Disconnect(w, client, n) == PadRemove(w, client, n)
  {
    if client in w.players {
      PadRemoveReleases(w, client, n);
    }
  }

  // ---------------------------------------------------------------------------
  // Physics tick
  // ---------------------------------------------------------------------------

  /** Whether `b` is at or beyond the border line guarded by paddle `p`. */
  predicate Crossed(p: PadId, b: Position) {
    match p
    case Pad2 => b.left <= LowBorder
    case Pad1 => b.left >= HighBorder
    case Pad3 => b.top <= LowBorder
    case Pad4 => b.top >= HighBorder
  }

  /** check_pad_col: whether the ball lies in paddle `p`'s collision span along the paddle's axis. */
  predicate CheckPadCol(w: World, p: PadId) {
    Collides(Slide(p, PosOf(w.pads.Get(p))), Slide(p, w.ball))
  }

  /** get_speed: set the velocity component along paddle `p`'s wall from the rebound bands. */
  function GetSpeed(w: World, p: PadId, n: int): World
    requires n >= 1
  {
    var slide := Slide(p, PosOf(w.pads.Get(p)));
    if IsSidePad(p) then
      w.(speed := w.speed.(top := Rebound(p, slide, w.ball.top, n, w.speed.top)))
    else
      w.(speed := w.speed.(left := Rebound(p, slide, w.ball.left, n, w.speed.left)))
  }

  /** score: credit the last toucher, give the serve to the paddle that missed. */
  function Score(w: World, p: PadId): World
  {
    w.(withBall := w.withBall.Set(p, true),
       speed := Still,
       ball := ServeSpot(p, PosOf(w.pads.Get(p))),
       score := w.score.Set(w.lastTouch, w.score.Get(w.lastTouch) + 1),
       lastTouch := p)
  }

  /** A point goes to the last toucher only, and the paddle that missed serves next from in front of itself. */
  lemma ScoreAwardsPoint(w: World, p: PadId)
    requires Inv(w) && NoHolder(w)
    ensures var w' := Score(w, p);
            Inv(w') && SoleHolder(w', p) && w'.speed == Still && w'.lastTouch == p &&
            w'.score.Get(w.lastTouch) == w.score.Get(w.lastTouch) + 1 &&
            (forall q: PadId :: q != w.lastTouch ==> w'.score.Get(q) == w.score.Get(q)) &&
            w'.ball == ServeSpot(p, PosOf(w.pads.Get(p))) &&
            w'.pads == w.pads && w'.players == w.players
  {
    ServeSpotInFront(p, PosOf(w.pads.Get(p)));
  }

  /** Ball connected to no active paddle, or the connection count covers the players. */
  predicate Staffed(w: World, n: int)
  {
    n >= 1 || forall p: PadId :: !w.pads.Get(p).active
  }

  lemma ConnectionsStaffPads(w: World, n: int)
    requires Inv(w) && n >= |w.players|
    ensures Staffed(w, n)
  {
    if n < 1 {
      assert w.players == map[];
    }
  }

  /**
   * One border of the tick, the ball being at or beyond `p`'s border line:
   * a wall bounce when `p` is idle, a rebound when the ball is in `p`'s span,
   * a point against `p` otherwise. The flag tells whether a point was scored.
   */
  function BorderStep(w: World, p: PadId, n: int): (r: (World, bool))
    requires Staffed(w, n)
    ensures r.0.pads == w.pads && r.0.players == w.players
  {
    if !w.pads.Get(p).active then
      (w.(speed := Reflect(p, w.speed)), false)
    else if CheckPadCol(w, p) then
      (GetSpeed(w.(speed := Reflect(p, w.speed), lastTouch := p), p, n), false)
    else
      (Score(w, p), true)
  }

  /** BorderStep when the snapshot `b` crossed `p`'s line, otherwise no change. */
  function Border(w: World, p: PadId, b: Position, n: int): (r: (World, bool))
    requires Staffed(w, n)
    ensures r.0.pads == w.pads && r.0.players == w.players
  {
    if Crossed(p, b) then BorderStep(w, p, n) else (w, false)
  }

  /**
   * A crossed border whose active paddle covers the ball: the ball is sent
   * back, the paddle becomes the last toucher, and the speed along the wall
   * comes from the rebound bands. Position, holder and score stay.
   */
  lemma BorderPaddleHit(w: World, p: PadId, n: int)
    requires Staffed(w, n) && w.pads.Get(p).active && CheckPadCol(w, p)
    ensures var (w', scored) := BorderStep(w, p, n);
            !scored && w'.lastTouch == p &&
            Along(p, w'.speed) == -Along(p, w.speed) &&
            Across(p, w'.speed) ==
              Rebound(p, Slide(p, PosOf(w.pads.Get(p))), Slide(p, w.ball), n, Across(p, w.speed)) &&
            w'.ball == w.ball && w'.withBall == w.withBall && w'.score == w.score
  {
  }

  /** A crossed border whose paddle is idle acts as a wall: only the speed towards it flips. */
  lemma BorderIdleWall(w: World, p: PadId, n: int)
    requires Staffed(w, n) && !w.pads.Get(p).active
    ensures var (w', scored) := BorderStep(w, p, n);
            !scored && w'.lastTouch == w.lastTouch &&
            Along(p, w'.speed) == -Along(p, w.speed) && Across(p, w'.speed) == Across(p, w.speed) &&
            w'.ball == w.ball && w'.withBall == w.withBall && w'.score == w.score
  {
  }

  /**
   * A crossed border whose active paddle does not cover the ball: a point
   * for the last toucher, and the paddle that missed takes the ball, at rest
   * at its serve spot, as the new last toucher.
   */
  lemma BorderMiss(w: World, p: PadId, n: int)
    requires Staffed(w, n) && w.pads.Get(p).active && !CheckPadCol(w, p)
    ensures var (w', scored) := BorderStep(w, p, n);
            scored && w'.lastTouch == p &&
            w'.score == w.score.Set(w.lastTouch, w.score.Get(w.lastTouch) + 1) &&
            w'.speed == Still && w'.ball == ServeSpot(p, PosOf(w.pads.Get(p))) &&
            w'.withBall == w.withBall.Set(p, true)
  {
  }

  function Advance(w: World): World {
    w.(ball := Position(w.ball.left + w.speed.left, w.ball.top + w.speed.top))
  }

  /**
   * move_ball: advance the ball, then try the left, right, top and bottom
   * borders in turn against the advanced position; the first point scored
   * ends the tick. The flag tells whether a point was scored.
   */
  function Tick(w: World, n: int): (World, bool)
    requires Inv(w) && n >= |w.players|
  {
    ConnectionsStaffPads(w, n);
    var a := Advance(w);
    var b := a.ball;
    var r1 := Border(a, Pad2, b, n);
    if r1.1 then r1 else
    var r2 := Border(r1.0, Pad1, b, n);
    if r2.1 then r2 else
    var r3 := Border(r2.0, Pad3, b, n);
    if r3.1 then r3 else
    Border(r3.0, Pad4, b, n)
  }

  /** A ball held for a serve does not move and nothing happens on a tick. */
  lemma TickLeavesServeAlone(w: World, n: int, p: PadId)
    requires Inv(w) && n >= |w.players| && w.withBall.Get(p)
    ensures Tick(w, n) == (w, false)
  {
    InFrontInside(p, PosOf(w.pads.Get(p)), w.ball);
    assert Advance(w) == w;
  }

  /** With every paddle idle the ball only bounces: no point, each crossed axis reflected. */
  lemma TickEmptyArenaBounces(w: World, n: int)
    requires Inv(w) && n >= |w.players|
    requires forall p: PadId :: !w.pads.Get(p).active
    ensures var (w', scored) := Tick(w, n);
            var b := Advance(w).ball;
            !scored && w'.ball == b &&
            w'.speed.left == (if b.left <= LowBorder || b.left >= HighBorder then -w.speed.left else w.speed.left) &&
            w'.speed.top == (if b.top <= LowBorder || b.top >= HighBorder then -w.speed.top else w.speed.top) &&
            w'.withBall == w.withBall && w'.lastTouch == w.lastTouch && w'.score == w.score
  {
  }

  /** A ball that reaches no border line just moves by its velocity. */
  lemma TickFreeFlight(w: World, n: int)
    requires Inv(w) && n >= |w.players|
    requires Inside(Advance(w).ball)
    ensures Tick(w, n) == (Advance(w), false)
  {
  }

  /** Sum of the score table. */
  function Total(score: PadTable<nat>): int {
    score.pad1 + score.pad2 + score.pad3 + score.pad4
  }

  /**
   * A tick awards exactly one point when it reports scoring and none
   * otherwise. When it scores, the paddle that missed was active and its
   * border was crossed, and it now alone holds the ball, at rest in front of
   * itself, as the new last toucher. When it does not score, the ball has
   * moved by its velocity and nobody holds it or gains a point.
   */
  lemma TickScore(w: World, n: int)
    requires Inv(w) && n >= |w.players|
    ensures var (w', scored) := Tick(w, n);
            Total(w'.score) == Total(w.score) + (if scored then 1 else 0) &&
            w'.pads == w.pads && w'.players == w.players &&
            (scored ==> exists p: PadId ::
               w.pads.Get(p).active && Crossed(p, Advance(w).ball) &&
               SoleHolder(w', p) && w'.lastTouch == p && w'.speed == Still &&
               w'.ball == ServeSpot(p, PosOf(w.pads.Get(p)))) &&
            (!scored ==> w'.ball == Advance(w).ball && w'.withBall == w.withBall &&
                         (w'.lastTouch == w.lastTouch ||
                          (w.pads.Get(w'.lastTouch).active && Crossed(w'.lastTouch, Advance(w).ball) &&
                           Collides(Slide(w'.lastTouch, PosOf(w.pads.Get(w'.lastTouch))),
                                    Slide(w'.lastTouch, Advance(w).ball)))))
  {
    ConnectionsStaffPads(w, n);
    var (w', scored) := Tick(w, n);
    if exists p: PadId :: w.withBall.Get(p) {
      var p: PadId :| w.withBall.Get(p);
      TickLeavesServeAlone(w, n, p);
    } else {
      var a := Advance(w);
      var b := a.ball;
      var (w1, s1) := Border(a, Pad2, b, n);
      var (w2, s2) := Border(w1, Pad1, b, n);
      var (w3, s3) := Border(w2, Pad3, b, n);
      var (w4, s4) := Border(w3, Pad4, b, n);
      BorderScore(a, Pad2, b, n);
      if s1 {
        assert w' == w1;
      } else {
        BorderScore(w1, Pad1, b, n);
        if s2 {
          assert w' == w2;
        } else {
          BorderScore(w2, Pad3, b, n);
          if s3 {
            assert w' == w3;
          } else {
            BorderScore(w3, Pad4, b, n);
            assert w' == w4;
          }
        }
      }
    }
  }

  /** One border awards one point exactly when it reports a miss, against the crossed active paddle. */
  lemma BorderScore(w: World, p: PadId, b: Position, n: int)
    requires NoHolder(w) && Staffed(w, n)
    ensures var (w', scored) := Border(w, p, b, n);
            (scored <==> w.pads.Get(p).active && Crossed(p, b) && !CheckPadCol(w, p)) &&
            Total(w'.score) == Total(w.score) + (if scored then 1 else 0) &&
            (scored ==> SoleHolder(w', p) && w'.lastTouch == p &&
                        w'.score == w.score.Set(w.lastTouch, w.score.Get(w.lastTouch) + 1) &&
                        w'.speed == Still && w'.ball == ServeSpot(p, PosOf(w.pads.Get(p)))) &&
            (!scored ==> w'.ball == w.ball && w'.withBall == w.withBall && w'.score == w.score &&
                         w'.lastTouch ==
                           (if w.pads.Get(p).active && Crossed(p, b) && CheckPadCol(w, p) then p else w.lastTouch) &&
                         (!Crossed(p, b) ==> w'.speed == w.speed) &&
                         (Crossed(p, b) && !w.pads.Get(p).active ==> w'.speed == Reflect(p, w.speed)) &&
                         (Crossed(p, b) && w.pads.Get(p).active ==>
                            Along(p, w'.speed) == -Along(p, w.speed) &&
                            Across(p, w'.speed) ==
                              Rebound(p, Slide(p, PosOf(w.pads.Get(p))), Slide(p, w.ball), n, Across(p, w.speed))))
  {
  }

  /** The order in which a tick tests the borders: left, right, top, bottom. */
  const TickOrder: seq<PadId> := [Pad2, Pad1, Pad3, Pad4]

  /** Active paddle `p` covers the ball at `b`, which has crossed its border line. */
  predicate Covers(w: World, p: PadId, b: Position) {
    w.pads.Get(p).active && Crossed(p, b) && Collides(Slide(p, PosOf(w.pads.Get(p))), Slide(p, b))
  }

  /** Active paddle `p` fails to cover the ball at `b`, which has crossed its border line. */
  predicate Misses(w: World, p: PadId, b: Position) {
    w.pads.Get(p).active && Crossed(p, b) && !Collides(Slide(p, PosOf(w.pads.Get(p))), Slide(p, b))
  }

  /** The last toucher after the first `j` borders of `TickOrder`, starting from `init`. */
  function ToucherAfter(w: World, b: Position, j: nat, init: PadId): PadId
    requires j <= |TickOrder|
  {
    if j == 0 then init
    else if Covers(w, TickOrder[j - 1], b) then TickOrder[j - 1]
    else ToucherAfter(w, b, j - 1, init)
  }

  /**
   * What a tick from `w` that ends in `w'` must look like, `b` being the
   * advanced ball position: a point exactly when some border's paddle misses,
   * against the first such paddle in the order left, right, top, bottom,
   * credited to the last toucher before that border; without a point, the
   * last toucher is the last paddle that covered a crossed border.
   */
  predicate FirstMissOutcome(w: World, w': World, scored: bool, b: Position) {
    (scored <==> exists j :: 0 <= j < |TickOrder| && Misses(w, TickOrder[j], b)) &&
    (scored ==> exists j :: 0 <= j < |TickOrder| && Misses(w, TickOrder[j], b) &&
                  (forall i :: 0 <= i < j ==> !Misses(w, TickOrder[i], b)) &&
                  w'.lastTouch == TickOrder[j] &&
                  var c := ToucherAfter(w, b, j, w.lastTouch);
                  w'.score == w.score.Set(c, w.score.Get(c) + 1)) &&
    (!scored ==> (forall p: PadId :: !Misses(w, p, b)) &&
                 w'.lastTouch == ToucherAfter(w, b, |TickOrder|, w.lastTouch) &&
                 w'.score == w.score)
  }

  /**
   * A tick scores exactly when some border's paddle misses; the point is
   * against the first one in the order left, right, top, bottom, and goes
   * to whoever touched the ball last before that border, which may be a
   * paddle that covered an earlier border in the same tick. Without a
   * point, the last toucher is the last paddle that covered a crossed border.
   */
  lemma TickFirstMiss(w: World, n: int)
    requires Inv(w) && n >= |w.players|
    ensures FirstMissOutcome(w, Tick(w, n).0, Tick(w, n).1, Advance(w).ball)
  {
    ConnectionsStaffPads(w, n);
    if exists p: PadId :: w.withBall.Get(p) {
      var p: PadId :| w.withBall.Get(p);
      TickHeldFirstMiss(w, n, p);
    } else {
      TickFreeFirstMiss(w, n);
    }
  }

  /** While the ball is held nothing crosses a border, so nobody misses or covers. */
  lemma TickHeldNoMiss(w: World, n: int, p: PadId)
    requires Inv(w) && n >= |w.players| && w.withBall.Get(p)
    ensures Tick(w, n) == (w, false) && Advance(w).ball == w.ball
    ensures forall q: PadId :: !Misses(w, q, w.ball) && !Covers(w, q, w.ball)
    ensures ToucherAfter(w, w.ball, |TickOrder|, w.lastTouch) == w.lastTouch
  {
    TickLeavesServeAlone(w, n, p);
    InFrontInside(p, PosOf(w.pads.Get(p)), w.ball);
    assert ToucherAfter(w, w.ball, 1, w.lastTouch) == w.lastTouch;
    assert ToucherAfter(w, w.ball, 2, w.lastTouch) == w.lastTouch;
    assert ToucherAfter(w, w.ball, 3, w.lastTouch) == w.lastTouch;
  }

  lemma TickHeldFirstMiss(w: World, n: int, p: PadId)
    requires Inv(w) && n >= |w.players| && w.withBall.Get(p)
    ensures FirstMissOutcome(w, Tick(w, n).0, Tick(w, n).1, Advance(w).ball)
  {
    TickHeldNoMiss(w, n, p);
  }

  /**
   * One border inside a tick, stated against the arena at the start of the
   * tick: the paddles and the advanced ball position have not changed since.
   */
  lemma BorderInTick(w: World, v: World, p: PadId, b: Position, n: int)
    requires NoHolder(v) && Staffed(v, n) && v.pads == w.pads && v.ball == b
    ensures StepFacts(w, b, v, Border(v, p, b, n), p)
    ensures var (v', scored) := Border(v, p, b, n);
            !scored ==> v'.pads == w.pads && v'.ball == b && NoHolder(v')
  {
    BorderScore(v, p, b, n);
  }

  /**
   * The border test of `p` took `v` to `r`, stated against the arena `w` at
   * the start of the tick: a point exactly on a miss, credited to `v`'s last
   * toucher; otherwise a covering paddle becomes the last toucher.
   */
  predicate StepFacts(w: World, b: Position, v: World, r: (World, bool), p: PadId) {
    (r.1 <==> Misses(w, p, b)) &&
    (r.1 ==> r.0.lastTouch == p && r.0.score == v.score.Set(v.lastTouch, v.score.Get(v.lastTouch) + 1)) &&
    (!r.1 ==> r.0.score == v.score && r.0.lastTouch == if Covers(w, p, b) then p else v.lastTouch)
  }

  /** Four border steps in `TickOrder`, stopping at the first point, fit `FirstMissOutcome`. */
  lemma FirstMissChain(w: World, b: Position, a: World,
                       r1: (World, bool), r2: (World, bool), r3: (World, bool), r4: (World, bool))
    requires a.lastTouch == w.lastTouch && a.score == w.score
    requires StepFacts(w, b, a, r1, Pad2)
    requires !r1.1 ==> StepFacts(w, b, r1.0, r2, Pad1)
    requires !r1.1 && !r2.1 ==> StepFacts(w, b, r2.0, r3, Pad3)
    requires !r1.1 && !r2.1 && !r3.1 ==> StepFacts(w, b, r3.0, r4, Pad4)
    ensures var r := if r1.1 then r1 else if r2.1 then r2 else if r3.1 then r3 else r4;
            FirstMissOutcome(w, r.0, r.1, b)
  {
    if r1.1 {
      ScoredAt(w, r1.0, b, 0);
      return;
    }
    assert r1.0.lastTouch == ToucherAfter(w, b, 1, w.lastTouch);
    if r2.1 {
      ScoredAt(w, r2.0, b, 1);
      return;
    }
    assert r2.0.lastTouch == ToucherAfter(w, b, 2, w.lastTouch);
    if r3.1 {
      ScoredAt(w, r3.0, b, 2);
      return;
    }
    assert r3.0.lastTouch == ToucherAfter(w, b, 3, w.lastTouch);
    if r4.1 {
      ScoredAt(w, r4.0, b, 3);
    } else {
      assert r4.0.lastTouch == ToucherAfter(w, b, 4, w.lastTouch);
      NothingScored(w, r4.0, b);
    }
  }

  lemma TickFreeFirstMiss(w: World, n: int)
    requires Inv(w) && n >= |w.players| && NoHolder(w)
    ensures FirstMissOutcome(w, Tick(w, n).0, Tick(w, n).1, Advance(w).ball)
  {
    ConnectionsStaffPads(w, n);
    var a := Advance(w);
    var b := a.ball;
    var r1 := Border(a, Pad2, b, n);
    var r2 := Border(r1.0, Pad1, b, n);
    var r3 := Border(r2.0, Pad3, b, n);
    var r4 := Border(r3.0, Pad4, b, n);
    BorderInTick(w, a, Pad2, b, n);
    if !r1.1 {
      BorderInTick(w, r1.0, Pad1, b, n);
      if !r2.1 {
        BorderInTick(w, r2.0, Pad3, b, n);
        if !r3.1 {
          BorderInTick(w, r3.0, Pad4, b, n);
        }
      }
    }
    FirstMissChain(w, b, a, r1, r2, r3, r4);
  }

  /** A point against the `j`-th border of `TickOrder`, the first that misses, fits `FirstMissOutcome`. */
  lemma ScoredAt(w: World, w': World, b: Position, j: nat)
    requires j < |TickOrder| && Misses(w, TickOrder[j], b)
    requires forall i :: 0 <= i < j ==> !Misses(w, TickOrder[i], b)
    requires w'.lastTouch == TickOrder[j]
    requires var c := ToucherAfter(w, b, j, w.lastTouch); w'.score == w.score.Set(c, w.score.Get(c) + 1)
    ensures FirstMissOutcome(w, w', true, b)
  {
  }

  /** A tick in which no border's paddle misses fits `FirstMissOutcome` without a point. */
  lemma NothingScored(w: World, w': World, b: Position)
    requires forall i :: 0 <= i < |TickOrder| ==> !Misses(w, TickOrder[i], b)
    requires w'.lastTouch == ToucherAfter(w, b, |TickOrder|, w.lastTouch) && w'.score == w.score
    ensures FirstMissOutcome(w, w', false, b)
  {
    assert TickOrder[0] == Pad2 && TickOrder[1] == Pad1 && TickOrder[2] == Pad3 && TickOrder[3] == Pad4;
  }

  /**
   * The velocity after the border test of `p` inside a tick, from velocity
   * `v`, the ball being at `b`: unchanged when the border is not crossed,
   * reflected at an idle wall, and sent back with the rebound speed along the
   * wall by a covering paddle. A miss stops the ball.
   */
  function StepSpeed(w: World, b: Position, p: PadId, n: int, v: Velocity): Velocity
    requires Staffed(w, n)
  {
    var slide := Slide(p, PosOf(w.pads.Get(p)));
    if !Crossed(p, b) then v
    else if !w.pads.Get(p).active then Reflect(p, v)
    else if Collides(slide, Slide(p, b)) then WithParts(p, -Along(p, v), Rebound(p, slide, Slide(p, b), n, Across(p, v)))
    else Still
  }

  /** The velocity after the first `j` borders of `TickOrder`, starting from `init`. */
  function SpeedAfter(w: World, b: Position, j: nat, n: int, init: Velocity): Velocity
    requires j <= |TickOrder| && Staffed(w, n)
  {
    if j == 0 then init else StepSpeed(w, b, TickOrder[j - 1], n, SpeedAfter(w, b, j - 1, n, init))
  }

  /** Four border steps in `TickOrder` without a point leave the velocity `SpeedAfter` describes. */
  lemma SpeedChain(w: World, b: Position, n: int, a: World,
                   r1: (World, bool), r2: (World, bool), r3: (World, bool), r4: (World, bool))
    requires Staffed(w, n) && a.speed == w.speed
    requires !r1.1 ==> r1.0.speed == StepSpeed(w, b, Pad2, n, a.speed)
    requires !r1.1 && !r2.1 ==> r2.0.speed == StepSpeed(w, b, Pad1, n, r1.0.speed)
    requires !r1.1 && !r2.1 && !r3.1 ==> r3.0.speed == StepSpeed(w, b, Pad3, n, r2.0.speed)
    requires !r1.1 && !r2.1 && !r3.1 && !r4.1 ==> r4.0.speed == StepSpeed(w, b, Pad4, n, r3.0.speed)
    ensures var r := if r1.1 then r1 else if r2.1 then r2 else if r3.1 then r3 else r4;
            !r.1 ==> r.0.speed == SpeedAfter(w, b, |TickOrder|, n, w.speed)
  {
    assert SpeedAfter(w, b, 1, n, w.speed) == StepSpeed(w, b, Pad2, n, w.speed);
    assert SpeedAfter(w, b, 2, n, w.speed) == StepSpeed(w, b, Pad1, n, SpeedAfter(w, b, 1, n, w.speed));
    assert SpeedAfter(w, b, 3, n, w.speed) == StepSpeed(w, b, Pad3, n, SpeedAfter(w, b, 2, n, w.speed));
    assert SpeedAfter(w, b, 4, n, w.speed) == StepSpeed(w, b, Pad4, n, SpeedAfter(w, b, 3, n, w.speed));
  }

  /** One border inside a tick, as `StepSpeed` describes its effect on the velocity. */
  lemma BorderSpeedInTick(w: World, v: World, p: PadId, b: Position, n: int)
    requires NoHolder(v) && Staffed(v, n) && v.pads == w.pads && v.ball == b
    ensures Staffed(w, n)
    ensures var (v', scored) := Border(v, p, b, n);
            !scored ==> v'.speed == StepSpeed(w, b, p, n, v.speed) && v'.pads == w.pads && v'.ball == b && NoHolder(v')
  {
    BorderScore(v, p, b, n);
  }

  /**
   * A tick without a point leaves the velocity that the borders crossed by
   * the advanced ball give, one after another in the order left, right, top,
   * bottom: an idle wall reflects it, and a covering paddle sends the ball
   * back and sets the speed along its wall from the rebound bands.
   */
  lemma TickRebounds(w: World, n: int)
    requires Inv(w) && n >= |w.players|
    ensures Staffed(w, n)
    ensures !Tick(w, n).1 ==> Tick(w, n).0.speed == SpeedAfter(w, Advance(w).ball, |TickOrder|, n, w.speed)
  {
    ConnectionsStaffPads(w, n);
    if exists p: PadId :: w.withBall.Get(p) {
      var p: PadId :| w.withBall.Get(p);
      TickHeldNoMiss(w, n, p);
      InFrontInside(p, PosOf(w.pads.Get(p)), w.ball);
      assert SpeedAfter(w, w.ball, 1, n, w.speed) == w.speed;
      assert SpeedAfter(w, w.ball, 2, n, w.speed) == w.speed;
      assert SpeedAfter(w, w.ball, 3, n, w.speed) == w.speed;
    } else {
      var a := Advance(w);
      var b := a.ball;
      var r1 := Border(a, Pad2, b, n);
      var r2 := Border(r1.0, Pad1, b, n);
      var r3 := Border(r2.0, Pad3, b, n);
      var r4 := Border(r3.0, Pad4, b, n);
      BorderSpeedInTick(w, a, Pad2, b, n);
      if !r1.1 {
        BorderSpeedInTick(w, r1.0, Pad1, b, n);
        if !r2.1 {
          BorderSpeedInTick(w, r2.0, Pad3, b, n);
          if !r3.1 {
            BorderSpeedInTick(w, r3.0, Pad4, b, n);
          }
        }
      }
      SpeedChain(w, b, n, a, r1, r2, r3, r4);
    }
  }

  /** A free ball stays free through a border unless a point is scored. */
  lemma BorderInv(w: World, p: PadId, b: Position, n: int)
    requires Inv(w) && NoHolder(w) && Staffed(w, n)
    ensures var (w', scored) := Border(w, p, b, n);
            Inv(w') && (!scored ==> NoHolder(w')) && (scored ==> SoleHolder(w', p))
  {
    if Crossed(p, b) && w.pads.Get(p).active && !CheckPadCol(w, p) {
      ScoreAwardsPoint(w, p);
    }
  }

  lemma TickInv(w: World, n: int)
    requires Inv(w) && n >= |w.players|
    ensures Inv(Tick(w, n).0)
  {
    ConnectionsStaffPads(w, n);
    if exists p: PadId :: w.withBall.Get(p) {
      var p: PadId :| w.withBall.Get(p);
      TickLeavesServeAlone(w, n, p);
    } else {
      var a := Advance(w);
      var b := a.ball;
      BorderInv(a, Pad2, b, n);
      var (w1, s1) := Border(a, Pad2, b, n);
      if !s1 {
        BorderInv(w1, Pad1, b, n);
        var (w2, s2) := Border(w1, Pad1, b, n);
        if !s2 {
          BorderInv(w2, Pad3, b, n);
          var (w3, s3) := Border(w2, Pad3, b, n);
          if !s3 {
            BorderInv(w3, Pad4, b, n);
          }
        }
      }
    }
  }

  // ---------------------------------------------------------------------------
  // Input
  // ---------------------------------------------------------------------------

  /** reset_score: every entry of the score table becomes 0. */
  function ResetScore(w: World): World {
    w.(score := Uniform(0))
  }

  lemma ResetScoreZeroes(w: World)
    requires Inv(w)
    ensures var w' := ResetScore(w);
            Inv(w') && (forall p: PadId :: w'.score.Get(p) == 0) &&
            w'.pads == w.pads && w'.ball == w.ball && w'.speed == w.speed &&
            w'.withBall == w.withBall && w'.lastTouch == w.lastTouch && w'.players == w.players
  {
    InitialInv();
  }

  /**
   * ConnectionManager.move_pad: Pad1/Pad2 answer only ArrowUp/ArrowDown and
   * Pad3/Pad4 only ArrowLeft/ArrowRight; the paddle steps 15 along its axis
   * within [8, 330] and a ball it holds steps with it within [45, 365].
   */
  function MovePad(w: World, client: ClientId, key: Key): World
    requires client in w.players
  {
    var p := w.players[client];
    var pad := w.pads.Get(p);
    if IsSidePad(p) then
      if key == ArrowUp then
        w.(pads := w.pads.Set(p, pad.(top := StepBack(pad.top, PadMin))),
           ball := if w.withBall.Get(p) then w.ball.(top := StepBack(w.ball.top, BallMin)) else w.ball)
      else if key == ArrowDown then
        w.(pads := w.pads.Set(p, pad.(top := StepForward(pad.top, PadMax))),
           ball := if w.withBall.Get(p) then w.ball.(top := StepForward(w.ball.top, BallMax)) else w.ball)
      else w
    else
      if key == ArrowLeft then
        w.(pads := w.pads.Set(p, pad.(left := StepBack(pad.left, PadMin))),
           ball := if w.withBall.Get(p) then w.ball.(left := StepBack(w.ball.left, BallMin)) else w.ball)
      else if key == ArrowRight then
        w.(pads := w.pads.Set(p, pad.(left := StepForward(pad.left, PadMax))),
           ball := if w.withBall.Get(p) then w.ball.(left := StepForward(w.ball.left, BallMax)) else w.ball)
      else w
  }

  /** Keys meant for the other orientation are ignored. */
  predicate Moves(p: PadId, key: Key) {
    if IsSidePad(p) then key == ArrowUp || key == ArrowDown else key == ArrowLeft || key == ArrowRight
  }

  /** The key direction along a paddle's axis: -1 towards the low end, +1 towards the high end. */
  function KeySign(key: Key): int {
    if key == ArrowUp || key == ArrowLeft then -1 else 1
  }

  /**
   * A move shifts only the client's paddle along its own axis, by 15 up to
   * the clamp; the ball moves the same way only when that paddle holds it;
   * nothing else changes and the invariant is kept.
   */
  lemma MovePadSteps(w: World, client: ClientId, key: Key)
    requires client in w.players
    ensures var p := w.players[client];
            var w' := MovePad(w, client, key);
            var s := Slide(p, PosOf(w.pads.Get(p)));
            var s' := Slide(p, PosOf(w'.pads.Get(p)));
            (!Moves(p, key) ==> w' == w) &&
            (Moves(p, key) ==>
               (KeySign(key) < 0 ==> s' == if s - PadStep >= PadMin then s - PadStep else PadMin) &&
               (KeySign(key) > 0 ==> s' == if s + PadStep <= PadMax then s + PadStep else PadMax) &&
               (w.withBall.Get(p) ==>
                  Slide(p, w'.ball) == (if KeySign(key) < 0 then StepBack(Slide(p, w.ball), BallMin)
                                        else StepForward(Slide(p, w.ball), BallMax)) &&
                  Fixed(p, w'.ball) == Fixed(p, w.ball)) &&
               (!w.withBall.Get(p) ==> w'.ball == w.ball)) &&
            Fixed(p, PosOf(w'.pads.Get(p))) == Fixed(p, PosOf(w.pads.Get(p))) &&
            w'.pads.Get(p).active == w.pads.Get(p).active &&
            (forall q: PadId :: q != p ==> w'.pads.Get(q) == w.pads.Get(q)) &&
            w'.speed == w.speed && w'.withBall == w.withBall && w'.score == w.score &&
            w'.lastTouch == w.lastTouch && w'.players == w.players
  {
  }

  /** A paddle inside [8, 330] stays inside, and a ball it carries stays in front of it. */
  lemma MovePadInv(w: World, client: ClientId, key: Key)
    requires Inv(w) && client in w.players
    ensures Inv(MovePad(w, client, key))
    ensures var p := w.players[client];
            PadMin <= Slide(p, PosOf(MovePad(w, client, key).pads.Get(p))) <= PadMax
  {
    var p := w.players[client];
    var w' := MovePad(w, client, key);
    MovePadSteps(w, client, key);
    StepsKeepPadOnRail(Slide(p, PosOf(w.pads.Get(p))));
    assert OnRail(p, PosOf(w'.pads.Get(p)));
    assert PadsOnRail(w');
    if w.withBall.Get(p) {
      CarryKeepsOffset(Slide(p, PosOf(w.pads.Get(p))), Slide(p, w.ball));
      assert InFront(p, PosOf(w'.pads.Get(p)), w'.ball);
    }
    assert HeldBallParked(w');
    assert forall q: PadId :: w'.pads.Get(q).active == w.pads.Get(q).active;
  }

  /** The outcome of a client command: the new arena, or the lookup of an unregistered client failing. */
  datatype Outcome = Applied(world: World) | UnknownClient

  /**
   * Command dispatch of one inbound message: arrows move the paddle, Enter
   * serves when the paddle holds the ball, Reset clears the score table,
   * anything else is ignored. Arrows and Enter look the client's slot up
   * first, which fails for a spectator.
   */
  function Dispatch(w: World, client: ClientId, cmd: Command, n: int): Outcome
    requires n >= 1
  {
    match cmd
    case Move(key) =>
      if client in w.players then Applied(MovePad(w, client, key)) else UnknownClient
    case Serve =>
      if client !in w.players then UnknownClient
      else if w.withBall.Get(w.players[client]) then Applied(Kick(w, client, n, false))
      else Applied(w)
    case ResetScores => Applied(ResetScore(w))
    case Unrecognised => Applied(w)
  }

  /** Every command keeps the invariant; only arrows and Enter from a spectator fail. */
  lemma DispatchInv(w: World, client: ClientId, cmd: Command, n: int)
    requires Inv(w) && n >= 1
    ensures Dispatch(w, client, cmd, n).UnknownClient? <==>
              client !in w.players && (cmd.Move? || cmd.Serve?)
    ensures Dispatch(w, client, cmd, n).Applied? ==> Inv(Dispatch(w, client, cmd, n).world)
    ensures cmd == Unrecognised ==> Dispatch(w, client, cmd, n) == Applied(w)
    ensures cmd.Move? && client in w.players ==>
              Dispatch(w, client, cmd, n) == Applied(MovePad(w, client, cmd.key))
    ensures cmd == Serve && client in w.players && w.withBall.Get(w.players[client]) ==>
              var r := Dispatch(w, client, cmd, n);
              r.Applied? && NoHolder(r.world) && r.world.speed == Launch(w.players[client], n, false) &&
              r.world.ball == w.ball && r.world.pads == w.pads && r.world.score == w.score
    ensures cmd == Serve && client in w.players && w.withBall.Get(w.players[client]) ==>
              Dispatch(w, client, cmd, n) == Applied(Kick(w, client, n, false))
    ensures cmd == ResetScores ==> Dispatch(w, client, cmd, n) == Applied(ResetScore(w))
    ensures cmd == Serve && client in w.players && !w.withBall.Get(w.players[client]) ==>
              Dispatch(w, client, cmd, n) == Applied(w)
    ensures cmd == ResetScores ==>
              var r := Dispatch(w, client, cmd, n);
              r.Applied? && (forall q: PadId :: r.world.score.Get(q) == 0) &&
              r.world.pads == w.pads && r.world.ball == w.ball && r.world.speed == w.speed &&
              r.world.players == w.players
  {
    match cmd
    case Move(key) =>
      if client in w.players { MovePadInv(w, client, key); }
    case Serve =>
      if client in w.players && w.withBall.Get(w.players[client]) { KickInv(w, client, n, false); }
    case ResetScores =>
      ResetScoreZeroes(w);
    case Unrecognised =>
  }

  // ---------------------------------------------------------------------------
  // A game
  // ---------------------------------------------------------------------------

  /**
   * A lone client joins and gets Pad1, which holds the ball from the start;
   * Enter launches it at full speed to the left. When the ball reaches the
   * left border the idle Pad2 wall bounces it back without a point.
   */
  lemma SoloServeBouncesOffIdleWall(client: ClientId)
    ensures var (w1, slot) := CreatePad(Initial(), client);
            var w2 := Kick(w1, client, 1, false);
            var w3 := w2.(ball := Position(19, 193));
            slot == Pad1 &&
            Dispatch(w1, client, Serve, 1) == Applied(w2) &&
            w2.speed == Velocity(0, -10) &&
            Inv(w3) &&
            Tick(w3, 1) == (w3.(ball := Position(9, 193), speed := Velocity(0, 10)), false)
  {
    InitialInv();
    var (w1, slot) := CreatePad(Initial(), client);
    FirstInactiveAt(Initial().pads, 0, 0);
    CreatePadInv(Initial(), client);
    KickInv(w1, client, 1, false);
  }
}
