/** The rules of one frame of the match, as pure functions of the player
    records: the movement phase, the sword collisions in fixed index order,
    the alive-count check and the end-of-time ranking, with the lemmas that
    say what each phase promises. */
module Rules {
  import opened Geometry

  /** The key names bound to one player's four directions and its attack. */
  datatype Keys = Keys(up: string, down: string, left: string, right: string, attack: string)

  /** One combatant. `lastSwing` is the time the last swing started and
      `lastHitTime` the time this player last landed a hit, in milliseconds. */
  datatype Player = Player(
    name: string,
    keys: Keys,
    x: int,
    y: int,
    facing: Facing,
    hp: int,
    alive: bool,
    swinging: bool,
    lastSwing: int,
    lastHitTime: int)

  /** What the match announces: nothing yet, the player at an index, or a draw. */
  datatype Outcome = Pending | Winner(index: nat) | Draw

  const Speed: int := 3           // pixels moved per held direction per frame
  const MaxHp: int := 100         // hp every player starts with
  const SwingDamage: int := 30    // hp a landed hit removes
  const SwingCooldown: int := 500 // ms between two swing starts of one player
  const HitGap: int := 80         // ms between two hits landed by one attacker

  /** v limited from above by hi and then from below by 0: v pulled into
      [0, hi], and 0 when hi < 0. */
  function Clamp(v: int, hi: int): (r: int)
    ensures hi >= 0 ==> 0 <= r <= hi
    ensures 0 <= v <= hi ==> r == v
    ensures v < 0 ==> r == 0
    ensures 0 <= hi < v ==> r == hi
    ensures hi < 0 ==> r == 0
  {
    var m := if hi < v then hi else v;
    if 0 < m then m else 0
  }

  /** The position of a direction in the order the frame reads the keys. */
  function Rank(d: Facing): nat {
    match d
    case Up => 0
    case Down => 1
    case Left => 2
    case Right => 3
  }

  /** The directions whose keys are held. */
  function HeldDirections(k: Keys, held: set<string>): set<Facing> {
    (if k.up in held then {Up} else {})
    + (if k.down in held then {Down} else {})
    + (if k.left in held then {Left} else {})
    + (if k.right in held then {Right} else {})
  }

  /** The facing after the movement keys are read: every held direction
      overwrites the facing in turn, so the last one read wins. */
  function FacingAfter(f: Facing, ds: set<Facing>): Facing {
    if Right in ds then Right
    else if Left in ds then Left
    else if Down in ds then Down
    else if Up in ds then Up
    else f
  }

  /** The facing after input is the held direction read last, and the old
      facing when no direction is held. */
  lemma FacingIsLastHeld(f: Facing, ds: set<Facing>)
    ensures ds == {} ==> FacingAfter(f, ds) == f
    ensures ds != {} ==>
      (FacingAfter(f, ds) in ds && forall d :: d in ds ==> Rank(d) <= Rank(FacingAfter(f, ds)))
  {
    if ds != {} {
      var d :| d in ds;
      assert d == Up || d == Down || d == Left || d == Right;
    }
  }

  /** A living player whose attack key is held starts a swing once the cooldown has passed. */
  predicate StartsSwing(p: Player, held: set<string>, now: int) {
    p.alive && p.keys.attack in held && now - p.lastSwing >= SwingCooldown
  }

  /** Net displacement along one axis: +Speed for the positive key, -Speed for the negative one. */
  function Displacement(neg: bool, pos: bool): int {
    (if pos then Speed else 0) - (if neg then Speed else 0)
  }

  /** What the movement phase does to one player: a living player moves by
      its held directions, is clamped to the arena, turns, and may start a swing. */
  function MoveStep(p: Player, held: set<string>, now: int, width: int, height: int): Player {
    if !p.alive then p
    else
      var k := p.keys;
      var starts := StartsSwing(p, held, now);
      p.(x := Clamp(p.x + Displacement(k.left in held, k.right in held), width - SpriteW * PixelScale),
         y := Clamp(p.y + Displacement(k.up in held, k.down in held), height - SpriteH * PixelScale),
         facing := FacingAfter(p.facing, HeldDirections(k, held)),
         swinging := p.swinging || starts,
         lastSwing := if starts then now else p.lastSwing)
  }

  /** The movement phase: every player in index order. */
  function InputPhase(ps: seq<Player>, held: set<string>, now: int, width: int, height: int): (r: seq<Player>)
    ensures |r| == |ps|
  {
    seq(|ps|, k requires 0 <= k < |ps| => MoveStep(ps[k], held, now, width, height))
  }

  /** After movement a living player is inside [0, width-18] x [0, height-24],
      whatever its keys. */
  lemma MoveStepInBounds(p: Player, held: set<string>, now: int, width: int, height: int)
    requires p.alive && width >= 18 && height >= 24
    ensures var q := MoveStep(p, held, now, width, height);
      0 <= q.x <= width - 18 && 0 <= q.y <= height - 24
  {
  }

  /** A swing starts exactly when the attack key is held and 500 ms have passed
      since the last start; starting records the time, otherwise the swing state
      is untouched, so two starts are always at least the cooldown apart. */
  lemma MoveStepSwing(p: Player, held: set<string>, now: int, width: int, height: int)
    ensures var q := MoveStep(p, held, now, width, height);
      (StartsSwing(p, held, now) ==> q.swinging && q.lastSwing == now)
      && (!StartsSwing(p, held, now) ==> q.swinging == p.swinging && q.lastSwing == p.lastSwing)
      && (q.lastSwing != p.lastSwing ==> p.alive && p.keys.attack in held && q.lastSwing - p.lastSwing >= SwingCooldown)
  {
  }

  /** The movement phase never touches hp, life or hit times, leaves the dead
      exactly as they were and puts every living player inside the arena. */
  lemma InputPhaseEffect(ps: seq<Player>, held: set<string>, now: int, width: int, height: int)
    requires width >= 18 && height >= 24
    ensures var r := InputPhase(ps, held, now, width, height);
      forall k :: 0 <= k < |ps| ==>
        r[k].hp == ps[k].hp && r[k].alive == ps[k].alive && r[k].lastHitTime == ps[k].lastHitTime
        && r[k].name == ps[k].name && r[k].keys == ps[k].keys
        && (!ps[k].alive ==> r[k] == ps[k])
        && (ps[k].alive ==> 0 <= r[k].x <= width - 18 && 0 <= r[k].y <= height - 24)
  {
  }

  /** Knockback along x for the attacker's facing. */
  function Push(f: Facing): int {
    match f
    case Left => -10
    case Right => 10
    case Up => -6
    case Down => 6
  }

  /** Attacker i, whose sword sweeps `sword`, lands a hit on player j at time `now`. */
  predicate Lands(ps: seq<Player>, i: nat, sword: Rect, j: nat, now: int)
    requires i < |ps| && j < |ps|
  {
    i != j && ps[j].alive && !(now - ps[i].lastHitTime < HitGap)
    && RectsOverlap(sword, PlayerRect(ps[j].x, ps[j].y))
  }

  /** A struck target: 30 hp less, pushed along x, dead once hp reaches 0 or below. */
  function Struck(b: Player, push: int): Player {
    var hp := b.hp - SwingDamage;
    b.(hp := hp, x := b.x + push, alive := if hp <= 0 then false else b.alive)
  }

  /** Attacker i considers target j. */
  function HitOne(ps: seq<Player>, i: nat, sword: Rect, j: nat, now: int): (r: seq<Player>)
    requires i < |ps| && j < |ps|
    ensures |r| == |ps|
  {
    if Lands(ps, i, sword, j, now) then
      ps[j := Struck(ps[j], Push(ps[i].facing))][i := ps[i].(lastHitTime := now)]
    else
      ps
  }

  /** Attacker i considers targets j, j+1, ... in index order. */
  function HitTargets(ps: seq<Player>, i: nat, sword: Rect, j: nat, now: int): (r: seq<Player>)
    requires i < |ps| && j <= |ps|
    ensures |r| == |ps|
    decreases |ps| - j
  {
    if j == |ps| then ps else HitTargets(HitOne(ps, i, sword, j, now), i, sword, j + 1, now)
  }

  /** Player i's turn in the collision phase: only a living, swinging player attacks. */
  function Attacker(ps: seq<Player>, i: nat, now: int): (r: seq<Player>)
    requires i < |ps|
    ensures |r| == |ps|
  {
    var a := ps[i];
    if !a.alive || !a.swinging then ps
    else HitTargets(ps, i, SwingRectFor(a.x, a.y, a.facing), 0, now)
  }

  /** The collision phase from attacker i on, in index order. */
  function Collide(ps: seq<Player>, i: nat, now: int): (r: seq<Player>)
    requires i <= |ps|
    ensures |r| == |ps|
    decreases |ps| - i
  {
    if i == |ps| then ps else Collide(Attacker(ps, i, now), i + 1, now)
  }

  /** One frame of play: movement, then collisions. */
  function Frame(ps: seq<Player>, held: set<string>, now: int, width: int, height: int): (r: seq<Player>)
    ensures |r| == |ps|
  {
    Collide(InputPhase(ps, held, now, width, height), 0, now)
  }

  /** A hit lowers the target's hp by exactly 30, moves only its x, by the
      knockback of the attacker's facing, kills it at hp <= 0, stamps the
      attacker's lastHitTime with `now`, and changes no one else. A dead
      target, the attacker itself and a throttled attacker change nothing. */
  lemma HitOneEffect(ps: seq<Player>, i: nat, sword: Rect, j: nat, now: int)
    requires i < |ps| && j < |ps|
    ensures var r := HitOne(ps, i, sword, j, now);
      (Lands(ps, i, sword, j, now) ==>
        r[j].hp == ps[j].hp - 30 && r[j].alive == (r[j].hp > 0)
        && r[j].x == ps[j].x + Push(ps[i].facing)
        && r[j] == ps[j].(hp := r[j].hp, x := r[j].x, alive := r[j].alive)
        && r[i] == ps[i].(lastHitTime := now)
        && forall k :: 0 <= k < |ps| && k != i && k != j ==> r[k] == ps[k])
      && (!Lands(ps, i, sword, j, now) ==> r == ps)
      && (i == j || !ps[j].alive || now - ps[i].lastHitTime < HitGap ==> r == ps)
  {
  }

  /** A throttled attacker lands nothing on any remaining target. */
  lemma {:induction false} ThrottledNoHits(ps: seq<Player>, i: nat, sword: Rect, j: nat, now: int)
    requires i < |ps| && j <= |ps|
    requires now - ps[i].lastHitTime < HitGap
    ensures HitTargets(ps, i, sword, j, now) == ps
    decreases |ps| - j
  {
    if j < |ps| {
      assert HitOne(ps, i, sword, j, now) == ps;
      ThrottledNoHits(ps, i, sword, j + 1, now);
    }
  }

  /** With one `now` per frame an attacker lands at most one hit per frame:
      at most one other player changes, and that one is struck exactly once
      while the attacker's lastHitTime becomes `now`. */
  lemma {:induction false} AtMostOneHit(ps: seq<Player>, i: nat, sword: Rect, j: nat, now: int)
    requires i < |ps| && j <= |ps|
    ensures var r := HitTargets(ps, i, sword, j, now);
      (forall k1, k2 ::
         (0 <= k1 < |ps| && 0 <= k2 < |ps| && k1 != i && k2 != i && r[k1] != ps[k1] && r[k2] != ps[k2])
         ==> k1 == k2)
      && (forall k :: 0 <= k < |ps| && k != i && r[k] != ps[k] ==>
            r[k] == Struck(ps[k], Push(ps[i].facing)) && r[i] == ps[i].(lastHitTime := now))
    decreases |ps| - j
  {
    if j < |ps| {
      var ps1 := HitOne(ps, i, sword, j, now);
      if Lands(ps, i, sword, j, now) {
        assert ps1[i].lastHitTime == now;
        ThrottledNoHits(ps1, i, sword, j + 1, now);
        HitOneEffect(ps, i, sword, j, now);
      } else {
        AtMostOneHit(ps, i, sword, j + 1, now);
      }
    }
  }

  /** When no remaining target is in reach of an unthrottled attack, the
      remaining targets are left as they were. */
  lemma {:induction false} NoLandingNoChange(ps: seq<Player>, i: nat, sword: Rect, j: nat, now: int)
    requires i < |ps| && j <= |ps|
    requires forall t :: j <= t < |ps| ==> !Lands(ps, i, sword, t, now)
    ensures HitTargets(ps, i, sword, j, now) == ps
    decreases |ps| - j
  {
    if j < |ps| {
      assert HitOne(ps, i, sword, j, now) == ps;
      NoLandingNoChange(ps, i, sword, j + 1, now);
    }
  }

  /** The first remaining target the attack lands on is struck, the attacker's
      lastHitTime becomes `now`, and nothing else changes. */
  lemma {:induction false} FirstLandingStruck(ps: seq<Player>, i: nat, sword: Rect, j: nat, j0: nat, now: int)
    requires i < |ps| && j <= j0 < |ps|
    requires Lands(ps, i, sword, j0, now)
    requires forall t :: j <= t < j0 ==> !Lands(ps, i, sword, t, now)
    ensures HitTargets(ps, i, sword, j, now)
      == ps[j0 := Struck(ps[j0], Push(ps[i].facing))][i := ps[i].(lastHitTime := now)]
    decreases j0 - j
  {
    if j < j0 {
      assert HitOne(ps, i, sword, j, now) == ps;
      FirstLandingStruck(ps, i, sword, j + 1, j0, now);
    } else {
      var ps1 := HitOne(ps, i, sword, j0, now);
      assert ps1[i].lastHitTime == now;
      ThrottledNoHits(ps1, i, sword, j0 + 1, now);
    }
  }

  /** A living, swinging attacker whose sword reaches nobody changes nothing;
      otherwise it strikes exactly the lowest-index player its attack lands on
      and stamps its own lastHitTime with `now`. */
  lemma AttackerStrikesFirstInReach(ps: seq<Player>, i: nat, now: int)
    requires i < |ps| && ps[i].alive && ps[i].swinging
    ensures var sword := SwingRectFor(ps[i].x, ps[i].y, ps[i].facing);
      var r := Attacker(ps, i, now);
      ((forall t :: 0 <= t < |ps| ==> !Lands(ps, i, sword, t, now)) ==> r == ps)
      && (forall j0 :: 0 <= j0 < |ps| && Lands(ps, i, sword, j0, now)
            && (forall t :: 0 <= t < j0 ==> !Lands(ps, i, sword, t, now))
            ==> r == ps[j0 := Struck(ps[j0], Push(ps[i].facing))][i := ps[i].(lastHitTime := now)])
  {
    var sword := SwingRectFor(ps[i].x, ps[i].y, ps[i].facing);
    if forall t :: 0 <= t < |ps| ==> !Lands(ps, i, sword, t, now) {
      NoLandingNoChange(ps, i, sword, 0, now);
    }
    forall j0 | 0 <= j0 < |ps| && Lands(ps, i, sword, j0, now)
        && (forall t :: 0 <= t < j0 ==> !Lands(ps, i, sword, t, now))
      ensures Attacker(ps, i, now)
        == ps[j0 := Struck(ps[j0], Push(ps[i].facing))][i := ps[i].(lastHitTime := now)]
    {
      FirstLandingStruck(ps, i, sword, 0, j0, now);
    }
  }

  /** One attacker's turn: a dead or idle player changes nothing; a living,
      swinging one strikes at most one other player, exactly once, stamps its
      own lastHitTime with `now`, and stays alive itself. */
  lemma AttackerEffect(ps: seq<Player>, i: nat, now: int)
    requires i < |ps|
    ensures var r := Attacker(ps, i, now);
      (!ps[i].alive || !ps[i].swinging ==> r == ps)
      && (ps[i].alive ==> r[i].alive)
      && (forall k1, k2 ::
            (0 <= k1 < |ps| && 0 <= k2 < |ps| && k1 != i && k2 != i && r[k1] != ps[k1] && r[k2] != ps[k2])
            ==> k1 == k2)
      && (forall k :: 0 <= k < |ps| && k != i && r[k] != ps[k] ==>
            r[k] == Struck(ps[k], Push(ps[i].facing)) && r[i] == ps[i].(lastHitTime := now))
  {
    var a := ps[i];
    if a.alive && a.swinging {
      var sword := SwingRectFor(a.x, a.y, a.facing);
      AtMostOneHit(ps, i, sword, 0, now);
      HitTargetsCombat(ps, i, sword, 0, now);
    }
  }

  /** No collision phase kills everyone: the last player to land a killing
      blow in the phase is still standing at its end. */
  lemma {:induction false} CollideKeepsSomeoneAlive(ps: seq<Player>, i: nat, now: int)
    requires i <= |ps|
    requires exists t :: 0 <= t < |ps| && ps[t].alive
    ensures exists t :: 0 <= t < |ps| && Collide(ps, i, now)[t].alive
    decreases |ps| - i
  {
    if i < |ps| {
      var ps1 := Attacker(ps, i, now);
      if ps[i].alive && ps[i].swinging {
        AttackerEffect(ps, i, now);
        assert ps1[i].alive;
      } else {
        assert ps1 == ps;
      }
      CollideKeepsSomeoneAlive(ps1, i + 1, now);
      var t :| 0 <= t < |ps| && Collide(ps1, i + 1, now)[t].alive;
      assert Collide(ps, i, now)[t].alive;
    } else {
      var t :| 0 <= t < |ps| && ps[t].alive;
      assert Collide(ps, i, now)[t].alive;
    }
  }

  /** Hence a frame that starts with someone alive never ends in the draw of
      the alive-count check. */
  lemma FrameNeverDraws(ps: seq<Player>, held: set<string>, now: int, width: int, height: int)
    requires exists t :: 0 <= t < |ps| && ps[t].alive
    ensures AliveOutcome(Frame(ps, held, now, width, height)) != Draw
  {
    var moved := InputPhase(ps, held, now, width, height);
    var t :| 0 <= t < |ps| && ps[t].alive;
    assert moved[t].alive;
    CollideKeepsSomeoneAlive(moved, 0, now);
    AliveOutcomeMeaning(Frame(ps, held, now, width, height));
  }

  /** How a collision phase may change one record: only x, hp, life and the
      hit time; hp never rises; a dead record stays exactly as it was. */
  predicate CombatStep(p: Player, q: Player) {
    q.name == p.name && q.keys == p.keys && q.y == p.y && q.facing == p.facing
    && q.swinging == p.swinging && q.lastSwing == p.lastSwing
    && q.hp <= p.hp && (!p.alive ==> q == p)
  }

  /** Every record of `qs` is a combat step of the same record of `ps`. */
  predicate CombatOnly(ps: seq<Player>, qs: seq<Player>) {
    |qs| == |ps| && forall k :: 0 <= k < |ps| ==> CombatStep(ps[k], qs[k])
  }

  /** The record invariant: alive exactly while hp is positive, hp never above
      100, a whole number of hits below 100, and never below -30. */
  predicate PlayerOk(p: Player) {
    p.hp <= MaxHp && p.hp > -SwingDamage && (MaxHp - p.hp) % SwingDamage == 0
    && (p.alive <==> p.hp > 0)
  }

  predicate AllOk(ps: seq<Player>) {
    forall k :: 0 <= k < |ps| ==> PlayerOk(ps[k])
  }

  /** The invariant leaves exactly five hp values possible: hp may go below 0,
      down to -20, because it is never clamped. */
  lemma PlayerOkHpValues(p: Player)
    requires PlayerOk(p)
    ensures p.hp in {100, 70, 40, 10, -20}
  {
  }

  lemma CombatOnlyTrans(ps: seq<Player>, qs: seq<Player>, rs: seq<Player>)
    requires CombatOnly(ps, qs) && CombatOnly(qs, rs)
    ensures CombatOnly(ps, rs)
  {
  }

  lemma HitOneCombat(ps: seq<Player>, i: nat, sword: Rect, j: nat, now: int)
    requires i < |ps| && j < |ps| && ps[i].alive
    ensures HitOne(ps, i, sword, j, now)[i].alive
    ensures CombatOnly(ps, HitOne(ps, i, sword, j, now))
    ensures AllOk(ps) ==> AllOk(HitOne(ps, i, sword, j, now))
  {
  }

  lemma {:induction false} HitTargetsCombat(ps: seq<Player>, i: nat, sword: Rect, j: nat, now: int)
    requires i < |ps| && j <= |ps| && ps[i].alive
    ensures CombatOnly(ps, HitTargets(ps, i, sword, j, now))
    ensures HitTargets(ps, i, sword, j, now)[i].alive
    ensures AllOk(ps) ==> AllOk(HitTargets(ps, i, sword, j, now))
    decreases |ps| - j
  {
    if j < |ps| {
      var ps1 := HitOne(ps, i, sword, j, now);
      HitOneCombat(ps, i, sword, j, now);
      HitTargetsCombat(ps1, i, sword, j + 1, now);
      CombatOnlyTrans(ps, ps1, HitTargets(ps1, i, sword, j + 1, now));
    }
  }

  /** The collision phase changes only x, hp, life and hit times, never raises
      hp, never touches or revives the dead, and keeps the record invariant. */
  lemma {:induction false} CollideCombat(ps: seq<Player>, i: nat, now: int)
    requires i <= |ps|
    ensures CombatOnly(ps, Collide(ps, i, now))
    ensures AllOk(ps) ==> AllOk(Collide(ps, i, now))
    decreases |ps| - i
  {
    if i < |ps| {
      var ps1 := Attacker(ps, i, now);
      var a := ps[i];
      if a.alive && a.swinging {
        HitTargetsCombat(ps, i, SwingRectFor(a.x, a.y, a.facing), 0, now);
      }
      CollideCombat(ps1, i + 1, now);
      CombatOnlyTrans(ps, ps1, Collide(ps1, i + 1, now));
    }
  }

  /** Over a whole frame the dead are never moved, struck or revived, hp never
      rises, and the record invariant is kept. */
  lemma FrameEffect(ps: seq<Player>, held: set<string>, now: int, width: int, height: int)
    ensures var r := Frame(ps, held, now, width, height);
      (forall k :: 0 <= k < |ps| ==>
         (r[k].hp <= ps[k].hp && r[k].name == ps[k].name
          && (!ps[k].alive ==> r[k] == ps[k])
          && (r[k].alive ==> ps[k].alive)))
      && (AllOk(ps) ==> AllOk(r))
  {
    var moved := InputPhase(ps, held, now, width, height);
    CollideCombat(moved, 0, now);
    assert AllOk(ps) ==> AllOk(moved);
  }

  /** Indices of the living players from k on, in increasing order. */
  function AliveFrom(ps: seq<Player>, k: nat): (r: seq<nat>)
    requires k <= |ps|
    ensures forall m :: 0 <= m < |r| ==> k <= r[m] < |ps| && ps[r[m]].alive
    ensures forall t :: k <= t < |ps| && ps[t].alive ==> t in r
    ensures forall m1, m2 :: 0 <= m1 < m2 < |r| ==> r[m1] < r[m2]
    decreases |ps| - k
  {
    if k == |ps| then []
    else if ps[k].alive then [k] + AliveFrom(ps, k + 1)
    else AliveFrom(ps, k + 1)
  }

  /** The indices of all living players, in increasing order. */
  function AliveIndices(ps: seq<Player>): (r: seq<nat>)
    ensures forall m :: 0 <= m < |r| ==> r[m] < |ps| && ps[r[m]].alive
    ensures forall t :: 0 <= t < |ps| && ps[t].alive ==> t in r
    ensures forall m1, m2 :: 0 <= m1 < m2 < |r| ==> r[m1] < r[m2]
  {
    AliveFrom(ps, 0)
  }

  /** Which indices are alive is all the living list depends on. */
  lemma {:induction false} AliveFromDependsOnLife(ps: seq<Player>, qs: seq<Player>, k: nat)
    requires |ps| == |qs| && k <= |ps|
    requires forall t :: 0 <= t < |ps| ==> ps[t].alive == qs[t].alive
    ensures AliveFrom(ps, k) == AliveFrom(qs, k)
    decreases |ps| - k
  {
    if k < |ps| {
      AliveFromDependsOnLife(ps, qs, k + 1);
    }
  }

  /** The alive-count check after collisions: one living player wins, none is
      a draw, more means play goes on. */
  function AliveOutcome(ps: seq<Player>): Outcome {
    var alive := AliveIndices(ps);
    if |alive| == 1 then Winner(alive[0])
    else if |alive| == 0 then Draw
    else Pending
  }

  /** The alive-count check declares a winner exactly when that player is the
      only one alive, a draw exactly when no one is, and nothing exactly when
      two distinct players are alive. */
  lemma AliveOutcomeMeaning(ps: seq<Player>)
    ensures AliveOutcome(ps) == Draw <==> forall t :: 0 <= t < |ps| ==> !ps[t].alive
    ensures forall w: nat :: AliveOutcome(ps) == Winner(w) <==>
      (w < |ps| && ps[w].alive && forall t :: 0 <= t < |ps| && ps[t].alive ==> t == w)
    ensures AliveOutcome(ps) == Pending <==>
      exists t1, t2 :: 0 <= t1 < t2 < |ps| && ps[t1].alive && ps[t2].alive
  {
    var alive := AliveIndices(ps);
    if |alive| == 1 {
      var w0 := alive[0];
      forall t | 0 <= t < |ps| && ps[t].alive ensures t == w0 {
        assert t in alive;
      }
    } else if |alive| >= 2 {
      var t1, t2 := alive[0], alive[1];
      assert t1 < t2 && ps[t1].alive && ps[t2].alive;
    }
  }

  /** The ranking at time-out: a draw when no one is alive, otherwise the
      living player with the greatest hp, the lowest index among equals. */
  ghost predicate IsTimeoutOutcome(ps: seq<Player>, o: Outcome) {
    match o
    case Pending => false
    case Draw => forall t :: 0 <= t < |ps| ==> !ps[t].alive
    case Winner(w) =>
      w < |ps| && ps[w].alive
      && (forall t :: 0 <= t < |ps| && ps[t].alive ==> ps[t].hp <= ps[w].hp)
      && (forall t :: 0 <= t < w && ps[t].alive ==> ps[t].hp < ps[w].hp)
  }

  /** A living player ranked against the living list in order is ranked
      against every living player. */
  lemma RankingOverLiving(ps: seq<Player>, w: nat)
    requires w < |ps| && ps[w].alive
    requires forall m :: 0 <= m < |AliveIndices(ps)| ==> ps[AliveIndices(ps)[m]].hp <= ps[w].hp
    requires forall m :: 0 <= m < |AliveIndices(ps)| && AliveIndices(ps)[m] < w ==>
      ps[AliveIndices(ps)[m]].hp < ps[w].hp
    ensures IsTimeoutOutcome(ps, Winner(w))
  {
    var alive := AliveIndices(ps);
    forall t | 0 <= t < |ps| && ps[t].alive
      ensures ps[t].hp <= ps[w].hp
      ensures t < w ==> ps[t].hp < ps[w].hp
    {
      assert t in alive;
      var m :| 0 <= m < |alive| && alive[m] == t;
    }
  }

  /** The time-out ranking names one outcome at most. */
  lemma TimeoutOutcomeUnique(ps: seq<Player>, o1: Outcome, o2: Outcome)
    requires IsTimeoutOutcome(ps, o1) && IsTimeoutOutcome(ps, o2)
    ensures o1 == o2
  {
  }
}
