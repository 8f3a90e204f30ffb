/** The match state and the events that drive it: a frame of play, the
    one-second countdown tick, the deferred end of a swing, the time-out
    ranking and the announcement that ends the match. */
module Game {
  import opened Geometry
  import opened Rules

  const StartTimer: int := 60 // seconds on the countdown when the match begins

  function NewPlayer(name: string, keys: Keys, x: int, y: int): Player {
    Player(name, keys, x, y, Right, MaxHp, true, false, 0, 0)
  }

  /** The four combatants at their spawn points, with full hp and facing right. */
  function Spawn(): (ps: seq<Player>)
    ensures |ps| == 4 && AllOk(ps)
    ensures forall k :: 0 <= k < |ps| ==> ps[k].alive && ps[k].hp == MaxHp && !ps[k].swinging
  {
    [ NewPlayer("P1", Keys("w", "s", "a", "d", "f"), 50, 50),
      NewPlayer("P2", Keys("ArrowUp", "ArrowDown", "ArrowLeft", "ArrowRight", "m"), 560, 50),
      NewPlayer("P3", Keys("i", "k", "j", "l", "o"), 50, 380),
      NewPlayer("P4", Keys("8", "5", "4", "6", "0"), 560, 380) ]
  }

  /** A fresh match has at least two players alive, so play goes on. */
  lemma SpawnContinues()
    ensures AliveOutcome(Spawn()) == Pending
  {
    var ps := Spawn();
    AliveOutcomeMeaning(ps);
    assert ps[0].alive && ps[1].alive;
  }

  /** endGame's ranking: among the living, in index order, a later player
      replaces the current winner only with strictly more hp. */
  method SelectWinner(ps: seq<Player>) returns (o: Outcome)
    ensures IsTimeoutOutcome(ps, o)
  {
    var alive := AliveIndices(ps);
    if |alive| == 0 {
      return Draw;
    }
    var winner: nat := alive[0];
    for k := 1 to |alive|
      invariant winner < |ps|
      invariant ps[winner].alive
      invariant winner <= alive[k - 1]
      invariant forall m :: 0 <= m < k ==> ps[alive[m]].hp <= ps[winner].hp
      invariant forall m :: 0 <= m < k && alive[m] < winner ==> ps[alive[m]].hp < ps[winner].hp
    {
      if ps[alive[k]].hp > ps[winner].hp {
        winner := alive[k];
      }
    }
    RankingOverLiving(ps, winner);
    return Winner(winner);
  }

  class Match {
    var players: seq<Player>
    var gameOver: bool
    var timer: int       // seconds left on the countdown
    var outcome: Outcome // what has been announced
    const width: int     // canvas width
    const height: int    // canvas height

    /** Every record keeps its invariant; the match is over exactly once an
        outcome is announced; while it runs, time is left and at least two
        players are alive. */
    ghost predicate Valid()
      reads this
    {
      AllOk(players)
      && (gameOver <==> outcome != Pending)
      && (outcome.Winner? ==> outcome.index < |players|)
      && (!gameOver ==> timer > 0 && AliveOutcome(players) == Pending)
    }

    constructor (w: int, h: int)
      ensures Valid() && width == w && height == h
      ensures players == Spawn() && !gameOver && timer == StartTimer && outcome == Pending
    {
      width, height := w, h;
      players := Spawn();
      gameOver := false;
      timer := StartTimer;
      outcome := Pending;
      new;
      SpawnContinues();
    }

    /** Ends the match and records the announced outcome `o`. */
    method AnnounceWinner(o: Outcome)
      requires AllOk(players) && o != Pending && (o.Winner? ==> o.index < |players|)
      modifies this
      ensures Valid() && gameOver && outcome == o
      ensures players == old(players) && timer == old(timer)
    {
      gameOver := true;
      outcome := o;
    }

    /** endGame: ends the match with the time-out ranking of the players. */
    method EndGame()
      requires AllOk(players)
      modifies this
      ensures Valid() && gameOver && IsTimeoutOutcome(players, outcome)
      ensures players == old(players) && timer == old(timer)
    {
      var o := SelectWinner(players);
      AnnounceWinner(o);
    }

    /** The one-second interval: while the match runs, one second comes off the
        countdown, and the match ends by ranking once no time is left. */
    method Tick()
      requires Valid()
      modifies this
      ensures Valid() && players == old(players)
      ensures old(gameOver) ==> unchanged(this)
      ensures !old(gameOver) ==> timer == old(timer) - 1 && (gameOver <==> timer <= 0)
      ensures !old(gameOver) && gameOver ==> IsTimeoutOutcome(players, outcome)
      ensures !gameOver ==> outcome == old(outcome)
    {
      if !gameOver {
        timer := timer - 1;
        if timer <= 0 {
          EndGame();
        }
      }
    }

    /** The deferred end of player i's swing, SwingDuration ms after it began;
        it fires whether or not the match has ended. */
    method StopSwing(i: nat)
      requires Valid() && i < |players|
      modifies this
      ensures Valid()
      ensures players == old(players)[i := old(players)[i].(swinging := false)]
      ensures gameOver == old(gameOver) && timer == old(timer) && outcome == old(outcome)
    {
      ghost var before := players;
      players := players[i := players[i].(swinging := false)];
      AliveFromDependsOnLife(before, players, 0);
    }

    /** The body of the movement loop for one player: each held direction
        moves it and overwrites its facing in the order up, down, left, right;
        then it is clamped to the arena and may start a swing. */
    method MovePlayer(p0: Player, held: set<string>, now: int) returns (p: Player)
      ensures p == MoveStep(p0, held, now, width, height)
    {
      p := p0;
      if !p.alive {
        return;
      }
      if p.keys.up in held { p := p.(y := p.y - Speed, facing := Up); }
      if p.keys.down in held { p := p.(y := p.y + Speed, facing := Down); }
      if p.keys.left in held { p := p.(x := p.x - Speed, facing := Left); }
      if p.keys.right in held { p := p.(x := p.x + Speed, facing := Right); }
      assert p.facing == FacingAfter(p0.facing, HeldDirections(p0.keys, held));
      assert p.x == p0.x + Displacement(p0.keys.left in held, p0.keys.right in held);
      assert p.y == p0.y + Displacement(p0.keys.up in held, p0.keys.down in held);
      p := p.(x := Clamp(p.x, width - SpriteW * PixelScale));
      p := p.(y := Clamp(p.y, height - SpriteH * PixelScale));
      if p.keys.attack in held {
        if now - p.lastSwing >= SwingCooldown {
          p := p.(swinging := true, lastSwing := now);
        }
      }
    }

    /** The movement part of update: each living player in turn. */
    method MovePlayers(held: set<string>, now: int)
      modifies this`players
      ensures players == InputPhase(old(players), held, now, width, height)
    {
      // movement, clamping and swing starts, player by player
      for k := 0 to |players|
        invariant |players| == |old(players)|
        invariant forall m :: 0 <= m < k ==> players[m] == MoveStep(old(players)[m], held, now, width, height)
        invariant forall m :: k <= m < |players| ==> players[m] == old(players)[m]
      {
        var p := MovePlayer(players[k], held, now);
        players := players[k := p];
      }
      assert players == InputPhase(old(players), held, now, width, height);
    }

    /** The collision part of update. */
    method ResolveSwings(now: int)
      modifies this`players
      ensures players == Collide(old(players), 0, now)
    {
      // sword collisions: attackers and then targets in index order
      ghost var moved := players;
      for i := 0 to |players|
        invariant |players| == |moved|
        invariant Collide(players, i, now) == Collide(moved, 0, now)
      {
        var a := players[i];
        if !a.alive || !a.swinging {
          continue;
        }
        var sword := SwingRectFor(a.x, a.y, a.facing);
        ghost var before := players;
        for j := 0 to |players|
          invariant |players| == |before|
          invariant players[i].facing == a.facing
          invariant HitTargets(players, i, sword, j, now) == HitTargets(before, i, sword, 0, now)
        {
          if i == j {
            continue;
          }
          ghost var cur := players;
          var b := players[j];
          if !b.alive {
            continue;
          }
          if now - players[i].lastHitTime < HitGap {
            continue;
          }
          if RectsOverlap(sword, PlayerRect(b.x, b.y)) {
            b := b.(hp := b.hp - SwingDamage);
            players := players[i := players[i].(lastHitTime := now)];
            b := b.(x := b.x + Push(a.facing));
            if b.hp <= 0 {
              b := b.(alive := false);
            }
            players := players[j := b];
            assert players == HitOne(cur, i, sword, j, now);
          }
        }
      }
    }

    /** One animation frame at time `now` with the keys in `held` pressed:
        nothing once the match is over; otherwise movement, then collisions,
        then the alive-count check. */
    method Update(held: set<string>, now: int)
      requires Valid()
      modifies this
      ensures Valid() && timer == old(timer)
      ensures old(gameOver) ==> unchanged(this)
      ensures !old(gameOver) ==> players == Frame(old(players), held, now, width, height)
      ensures !old(gameOver) ==> outcome == AliveOutcome(players) && (gameOver <==> outcome != Pending)
    {
      if gameOver {
        return;
      }

      MovePlayers(held, now);
      ResolveSwings(now);
      FrameEffect(old(players), held, now, width, height);

      // alive-count check
      var alive := AliveIndices(players);
      if |alive| == 1 {
        AnnounceWinner(Winner(alive[0]));
      } else if |alive| == 0 {
        AnnounceWinner(Draw);
      }
    }
  }
}
