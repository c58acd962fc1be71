/**
 * The server's shared arena as the mutable object it is: the field table,
 * the system table and the player registry are fields that every operation
 * updates in place. Each method follows the server's code step by step and
 * is proved to produce the arena that the matching PongWorld function
 * describes; the object invariant Valid() is PongWorld.Inv of the state.
 */
module PongArena {
  import opened PongRules
  import opened PongWorld

  class Arena {
    var pads: PadTable<PadState>
    var withBall: PadTable<bool>
    var ball: Position
    var speed: Velocity
    var lastTouch: PadId
    var score: PadTable<nat>
    var players: map<ClientId, PadId>

    /** The arena as a value. */
    function State(): World
      reads this
    {
      World(pads, withBall, ball, speed, lastTouch, score, players)
    }

    ghost predicate Valid()
      reads this
    {
      Inv(State())
    }

    /** The arena at process start. */
    constructor ()
      ensures State() == Initial() && Valid()
      ensures SoleHolder(State(), Pad1)
    {
      pads := PadTable(Home(Pad1), Home(Pad2), Home(Pad3), Home(Pad4));
      withBall := PadTable(true, false, false, false);
      ball := BallDefault;
      speed := Still;
      lastTouch := Pad1;
      score := Uniform(0);
      players := map[];
      InitialInv();
    }

    /** get_pad: the slot of a registered client. */
    function GetPad(client: ClientId): (p: PadId)
      reads this
      requires client in players
      ensures p in players.Values
    {
      players[client]
    }

    /** crete_pad: scan the slots in order and give the client the first idle one. */
    method CreatePad(client: ClientId) returns (slot: PadId)
      requires Valid() && client !in players && |players| < 4
      modifies this
      ensures (State(), slot) == PongWorld.CreatePad(old(State()), client)
      ensures Valid()
    {
      ghost var w := State();
      FreeSlotExists(w);
      var i := 0;
      while pads.Get(PadOrder[i]).active
        invariant 0 <= i < |PadOrder|
        invariant forall j :: 0 <= j < i ==> pads.Get(PadOrder[j]).active
        invariant exists j :: i <= j < |PadOrder| && !pads.Get(PadOrder[j]).active
        decreases |PadOrder| - i
      {
        i := i + 1;
      }
      slot := PadOrder[i];
      players := players[client := slot];
      pads := pads.Set(slot, pads.Get(slot).(active := true));
      FirstInactiveAt(w.pads, 0, i);
      CreatePadInv(w, client);
    }

    /** Admission of a connecting client: spectator at capacity, otherwise crete_pad. */
    method Join(client: ClientId) returns (slot: Option<PadId>)
      requires Valid() && (client !in players || |players| >= 4)
      modifies this
      ensures (State(), slot) == PongWorld.Join(old(State()), client)
      ensures Valid()
    {
      if |players| >= 4 {
        slot := None;
      } else {
        var p := CreatePad(client);
        slot := Some(p);
      }
    }

    /** kick_ball: the client's paddle lets go of the ball with the launch velocity of its side. */
    method KickBall(client: ClientId, n: int, disconnect: bool)
      requires Valid() && client in players && n >= 1
      requires withBall.Get(players[client])
      modifies this
      ensures State() == Kick(old(State()), client, n, disconnect)
      ensures Valid() && NoHolder(State())
    {
      ghost var w := State();
      var p := GetPad(client);
      withBall := withBall.Set(p, false);
      if p == Pad1 {
        speed := Velocity(0, TruncDiv(-BallSpeed, n));
      } else if p == Pad2 {
        speed := Velocity(0, TruncDiv(BallSpeed, n));
      } else if p == Pad3 {
        speed := Velocity(TruncDiv(BallSpeed, n), 0);
      } else {
        speed := Velocity(TruncDiv(-BallSpeed, n), 0);
      }
      if disconnect {
        speed := Velocity(speed.top + 1, speed.left + 1);
      }
      KickInv(w, client, n, disconnect);
    }

    /** pad_remove: launch the ball if held, send the paddle home idle, drop the client. */
    method PadRemove(client: ClientId, n: int)
      requires Valid() && client in players && n >= 1
      modifies this
      ensures State() == PongWorld.PadRemove(old(State()), client, n)
      ensures Valid()
    {
      ghost var w := State();
      var p := GetPad(client);
      if withBall.Get(p) {
        KickBall(client, n, true);
      }
      var home := DefaultPosition(p);
      pads := pads.Set(p, pads.Get(p).(active := false));
      pads := pads.Set(p, pads.Get(p).(left := home.left));
      pads := pads.Set(p, pads.Get(p).(top := home.top));
      players := players - {client};
      PadRemoveReleases(w, client, n);
    }

    /** ConnectionManager.disconnect: release the slot of a registered client. */
    method Disconnect(client: ClientId, n: int)
      requires Valid() && n >= 1
      modifies this
      ensures State() == PongWorld.Disconnect(old(State()), client, n)
      ensures Valid()
    {
      if client in players {
        PadRemove(client, n);
      }
    }

    /** check_pad_col: whether the ball is inside paddle `p`'s collision span along the paddle's axis. */
    function CheckPadCol(p: PadId): (hit: bool)
      reads this
      ensures hit == PongWorld.CheckPadCol(State(), p)
    {
      if p == Pad1 || p == Pad2 then
        var top := pads.Get(p).top;
        top <= ball.top <= top + PadWidth + 10
      else
        var left := pads.Get(p).left;
        left <= ball.left <= left + PadWidth + 10
    }

    /** get_speed: after a paddle hit, set the speed along the paddle from the distance to its centre. */
    method GetSpeed(p: PadId, n: int)
      requires n >= 1
      modifies this`speed
      ensures State() == PongWorld.GetSpeed(old(State()), p, n)
    {
      if p == Pad1 || p == Pad2 {
        var bpt := ball.top;
        var centre := pads.Get(p).top + PadWidth / 2;
        var diff := Abs(centre - bpt);
        if 5 * diff < PadWidth {
          speed := speed.(top := 4 / n + 1);
        } else if PadWidth < 5 * diff && 3 * diff < PadWidth {
          speed := speed.(top := 8 / n + 1);
        } else if 3 * diff > PadWidth {
          speed := speed.(top := 10 / n + 1);
        }
        if centre - bpt >= 0 {
          speed := speed.(top := speed.top * -1);
        }
      } else {
        var bpl := ball.left;
        var centre := pads.Get(p).left + PadWidth / 2;
        var diff := Abs(centre - bpl);
        if 5 * diff < PadWidth {
          speed := speed.(left := 4 / n);
        } else if PadWidth < 5 * diff && 3 * diff < PadWidth {
          speed := speed.(left := 8 / n);
        } else if 3 * diff > PadWidth {
          speed := speed.(left := 10 / n);
        }
        if centre - bpl >= 0 {
          speed := speed.(left := speed.left * -1);
        }
      }
    }

    /** score: credit the last toucher and park the ball at rest in front of the paddle that missed. */
    method ScorePoint(p: PadId)
      modifies this
      ensures State() == Score(old(State()), p)
    {
      withBall := withBall.Set(p, true);
      speed := Still;
      var shiftTop := if p == Pad1 || p == Pad2 then PadWidth / 2 - 5 else PadHeight;
      var shiftLeft := if p == Pad1 || p == Pad2 then PadHeight else PadWidth / 2 - 5;
      if p == Pad1 {
        shiftLeft := shiftLeft * -1;
      }
      if p == Pad4 {
        shiftTop := shiftTop * -1 - 1;
      }
      ball := Position(pads.Get(p).left + shiftLeft, pads.Get(p).top + shiftTop);
      score := score.Set(lastTouch, score.Get(lastTouch) + 1);
      lastTouch := p;
    }

    /**
     * One border of move_ball, the ball being at or beyond `p`'s line:
     * bounce off an idle paddle's wall, rebound from the paddle when the
     * ball is in its span, otherwise score against it.
     */
    method HitBorder(p: PadId, n: int) returns (missed: bool)
      requires Staffed(State(), n)
      modifies this
      ensures (State(), missed) == BorderStep(old(State()), p, n)
    {
      if pads.Get(p).active {
        if CheckPadCol(p) {
          speed := Reflect(p, speed);
          lastTouch := p;
          GetSpeed(p, n);
          missed := false;
        } else {
          ScorePoint(p);
          missed := true;
        }
      } else {
        speed := Reflect(p, speed);
        missed := false;
      }
    }

    /**
     * move_ball: advance the ball by its velocity, then test the left,
     * right, top and bottom borders in that order against the advanced
     * position; the first point scored ends the tick. `n` is the number of
     * open connections, at least one per registered player.
     */
    method MoveBall(n: int) returns (scored: bool)
      requires Valid() && n >= |players|
      modifies this
      ensures (State(), scored) == Tick(old(State()), n)
      ensures Valid()
    {
      ghost var w := State();
      TickInv(w, n);
      ConnectionsStaffPads(w, n);
      ball := Position(ball.left + speed.left, ball.top + speed.top);
      ghost var b := ball;
      assert State() == Advance(w);
      var bt := ball.top;
      var bl := ball.left;
      ghost var r1 := Border(State(), Pad2, b, n);
      if bl <= LowBorder {
        scored := HitBorder(Pad2, n);
        if scored {
          return;
        }
      }
      assert State() == r1.0 && !r1.1;
      ghost var r2 := Border(State(), Pad1, b, n);
      if bl >= HighBorder {
        scored := HitBorder(Pad1, n);
        if scored {
          return;
        }
      }
      assert State() == r2.0 && !r2.1;
      ghost var r3 := Border(State(), Pad3, b, n);
      if bt <= LowBorder {
        scored := HitBorder(Pad3, n);
        if scored {
          return;
        }
      }
      assert State() == r3.0 && !r3.1;
      ghost var r4 := Border(State(), Pad4, b, n);
      if bt >= HighBorder {
        scored := HitBorder(Pad4, n);
        if scored {
          return;
        }
      }
      assert State() == r4.0 && !r4.1;
      scored := false;
    }

    /** reset_score: set every entry of the score table to 0. */
    method ResetScore()
      requires Valid()
      modifies this`score
      ensures State() == PongWorld.ResetScore(old(State()))
      ensures Valid()
    {
      ghost var w := State();
      var i := 0;
      while i < |PadOrder|
        invariant 0 <= i <= |PadOrder|
        invariant forall j :: 0 <= j < i ==> score.Get(PadOrder[j]) == 0
      {
        score := score.Set(PadOrder[i], 0);
        i := i + 1;
      }
      assert score.Get(PadOrder[0]) == 0 && score.Get(PadOrder[1]) == 0;
      assert score.Get(PadOrder[2]) == 0 && score.Get(PadOrder[3]) == 0;
      ResetScoreZeroes(w);
    }

    /**
     * ConnectionManager.move_pad: step the client's paddle along its own
     * axis and, when it holds the ball, the ball with it.
     */
    method MovePad(client: ClientId, key: Key)
      requires Valid() && client in players
      modifies this
      ensures State() == PongWorld.MovePad(old(State()), client, key)
      ensures Valid()
    {
      ghost var w := State();
      var p := GetPad(client);
      if p == Pad1 || p == Pad2 {
        if key == ArrowUp {
          var top := pads.Get(p).top - PadStep;
          if top <= PadMin {
            top := PadMin;
          }
          pads := pads.Set(p, pads.Get(p).(top := top));
          if withBall.Get(p) {
            var bt := ball.top - PadStep;
            if bt <= BallMin {
              bt := BallMin;
            }
            ball := ball.(top := bt);
          }
        }
        if key == ArrowDown {
          var top := pads.Get(p).top + PadStep;
          if top >= PadMax {
            top := PadMax;
          }
          pads := pads.Set(p, pads.Get(p).(top := top));
          if withBall.Get(p) {
            var bt := ball.top + PadStep;
            if bt >= BallMax {
              bt := BallMax;
            }
            ball := ball.(top := bt);
          }
        }
      }
      if p == Pad3 || p == Pad4 {
        if key == ArrowLeft {
          var left := pads.Get(p).left - PadStep;
          if left <= PadMin {
            left := PadMin;
          }
          pads := pads.Set(p, pads.Get(p).(left := left));
          if withBall.Get(p) {
            var bl := ball.left - PadStep;
            if bl <= BallMin {
              bl := BallMin;
            }
            ball := ball.(left := bl);
          }
        }
        if key == ArrowRight {
          var left := pads.Get(p).left + PadStep;
          if left >= PadMax {
            left := PadMax;
          }
          pads := pads.Set(p, pads.Get(p).(left := left));
          if withBall.Get(p) {
            var bl := ball.left + PadStep;
            if bl >= BallMax {
              bl := BallMax;
            }
            ball := ball.(left := bl);
          }
        }
      }
      MovePadInv(w, client, key);
    }

    /**
     * One inbound message of a client's command loop. `known` is false when
     * an arrow or Enter comes from a client without a slot: the slot lookup
     * fails before anything changes.
     */
    method Receive(client: ClientId, data: string, n: int) returns (known: bool)
      requires Valid() && n >= 1
      modifies this
      ensures Dispatch(old(State()), client, ParseCommand(data), n) ==
              if known then Applied(State()) else UnknownClient
      ensures !known ==> State() == old(State())
      ensures Valid()
    {
      ghost var w := State();
      known := true;
      match ParseCommand(data) {
        case Move(key) =>
          if client in players {
            MovePad(client, key);
          } else {
            known := false;
          }
        case Serve =>
          if client !in players {
            known := false;
          } else if withBall.Get(GetPad(client)) {
            KickBall(client, n, false);
          }
        case ResetScores =>
          ResetScore();
        case Unrecognised =>
      }
    }
  }
}
