/**
 Combat of a basic unit (units/basic.js): who is within striking distance,
 the damage roll, taking a hit, the white flash, and the per-frame combat
 update with its attacker-side cooldown.

 The random number the source draws for each hit is passed in: `rand` for a
 single hit, and `rolls[i]` for the hit on the i-th enemy of a combat update.
 */
module Combat {

  import opened Units
  import RealArith

  /** Whether `other` is within the damage radius of `u`. Units of the same
      player never are; otherwise the test is dist <= damageRadius, written
      on squared distances (see InDamageRadiusIsDistanceTest). */
  function InDamageRadius(u: Unit, other: Unit): (r: bool)
    ensures u.playerId == other.playerId ==> !r
  {
    u.playerId != other.playerId
    && 0.0 <= u.damageRadius
    && SqDist(u.x, u.y, other.x, other.y) <= u.damageRadius * u.damageRadius
  }

  /** The squared test agrees with the Euclidean one for the true distance `d`. */
  lemma InDamageRadiusIsDistanceTest(u: Unit, other: Unit, d: real)
    requires d >= 0.0 && d * d == SqDist(u.x, u.y, other.x, other.y)
    ensures InDamageRadius(u, other) <==> u.playerId != other.playerId && d <= u.damageRadius
  {
    if 0.0 <= u.damageRadius {
      RealArith.SquareLe(d, u.damageRadius);
    }
  }

  /** Between two opposing units with the same radius, either both reach
      each other or neither does. */
  lemma InDamageRadiusSymmetric(a: Unit, b: Unit)
    requires a.damageRadius == b.damageRadius
    ensures InDamageRadius(a, b) == InDamageRadius(b, a)
  {
    SqDistSymmetric(a.x, a.y, b.x, b.y);
  }

  /** A random number as Math.random yields it. */
  predicate IsRandom(rand: real) {
    0.0 <= rand < 1.0
  }

  /** floor(rand * (maxDamage - minDamage + 1)) + minDamage. */
  function DamageRoll(minDamage: int, maxDamage: int, rand: real): (d: int)
    requires IsRandom(rand)
    ensures minDamage <= maxDamage ==> minDamage <= d <= maxDamage
  {
    var span := maxDamage - minDamage + 1;
    var p := rand * span as real;
    if minDamage <= maxDamage then
      ScaledRandomBelow(rand, span as real);
      p.Floor + minDamage
    else p.Floor + minDamage
  }

  /** A random number scaled by a positive span lies in [0, span). */
  lemma ScaledRandomBelow(rand: real, span: real)
    requires IsRandom(rand) && span > 0.0
    ensures 0.0 <= rand * span < span
  {
    RealArith.MulNonNeg(rand, span);
    RealArith.MulPos(1.0 - rand, span);
    assert (1.0 - rand) * span == span - rand * span;
  }

  /** Every damage amount of the range comes up for some random number. */
  lemma DamageRollCoversRange(minDamage: int, maxDamage: int, d: int)
    requires minDamage <= d <= maxDamage
    ensures exists rand :: IsRandom(rand) && DamageRoll(minDamage, maxDamage, rand) == d
  {
    var span := (maxDamage - minDamage + 1) as real;
    var off := (d - minDamage) as real;
    var rand := off / span;
    assert rand * span == off;
    assert rand < 1.0 by {
      assert off < span;
    }
    assert DamageRoll(minDamage, maxDamage, rand) == off.Floor + minDamage;
  }

  /** Everything but health, colour and flash timer is the same in `a` and `b`. */
  predicate OnlyHitFieldsChanged(a: Unit, b: Unit) {
    b.(health := a.health, color := a.color, flashTimer := a.flashTimer) == a
  }

  /** `target` takes a hit from `attacker`: the rolled damage is subtracted
      from its health, which bottoms out at 0, and it flashes white for
      200 ms. Returns the hit target and the damage rolled. */
  function TakeDamage(target: Unit, attacker: Unit, rand: real): (r: (Unit, int))
    requires IsRandom(rand)
    ensures r.1 == DamageRoll(attacker.minDamage, attacker.maxDamage, rand)
    ensures attacker.minDamage <= attacker.maxDamage ==>
              attacker.minDamage <= r.1 <= attacker.maxDamage
    ensures r.0.health >= 0
    ensures r.0.health == 0 <==> r.1 >= target.health
    ensures r.0.health > 0 ==> r.0.health == target.health - r.1
    ensures r.0.color == White && r.0.flashTimer == 200
    ensures OnlyHitFieldsChanged(target, r.0)
  {
    var damage := DamageRoll(attacker.minDamage, attacker.maxDamage, rand);
    var health := target.health - damage;
    (target.(health := if health <= 0 then 0 else health, color := White, flashTimer := 200),
     damage)
  }

  /** A hit keeps health within 0..maxHealth when the attacker's damage
      range is non-negative. */
  lemma HitKeepsHealthInRange(target: Unit, attacker: Unit, rand: real)
    requires IsRandom(rand)
    requires 0 <= target.health <= target.maxHealth
    requires 0 <= attacker.minDamage <= attacker.maxDamage
    ensures var hit := TakeDamage(target, attacker, rand).0;
            0 <= hit.health <= hit.maxHealth && hit.health <= target.health
  {
  }

  /** One frame of the flash: the timer counts down 16 ms, and the unit gets
      its own colour back when it runs out. */
  function FlashTick(u: Unit): (r: Unit)
    ensures u.flashTimer <= 0 ==> r == u
    ensures u.flashTimer > 0 ==> r.flashTimer == u.flashTimer - 16
    ensures u.flashTimer > 0 ==> r.color == (if u.flashTimer <= 16 then u.originalColor else u.color)
    ensures r.(flashTimer := u.flashTimer, color := u.color) == u
  {
    if u.flashTimer > 0 then
      var timer := u.flashTimer - 16;
      u.(flashTimer := timer, color := if timer <= 0 then u.originalColor else u.color)
    else u
  }

  /** `n` frames of the flash. */
  function FlashTicks(u: Unit, n: nat): Unit
    decreases n
  {
    if n == 0 then u else FlashTicks(FlashTick(u), n - 1)
  }

  /** While more than 16 ms per frame is left, frames only count down. */
  lemma {:induction false} FlashCountsDown(u: Unit, n: nat)
    requires u.flashTimer > 16 * n
    ensures FlashTicks(u, n) == u.(flashTimer := u.flashTimer - 16 * n)
    decreases n
  {
    if n > 0 {
      var v := FlashTick(u);
      assert v == u.(flashTimer := u.flashTimer - 16);
      FlashCountsDown(v, n - 1);
    }
  }

  /** A hit target stays white for 12 frames and gets its colour back on the
      13th. */
  lemma {:induction false} FlashLastsThirteenFrames(target: Unit, attacker: Unit, rand: real)
    requires IsRandom(rand)
    ensures var hit := TakeDamage(target, attacker, rand).0;
            && FlashTicks(hit, 12).color == White
            && FlashTicks(hit, 13).color == target.originalColor
            && FlashTicks(hit, 13).flashTimer <= 0
  {
    var hit := TakeDamage(target, attacker, rand).0;
    FlashCountsDown(hit, 12);
    var w := FlashTicks(hit, 12);
    assert w.flashTimer == 8 && w.color == White;
    assert FlashTicks(w, 1) == FlashTick(w);
    FlashTicksSplit(hit, 12, 1);
  }

  lemma {:induction false} FlashTicksSplit(u: Unit, m: nat, n: nat)
    ensures FlashTicks(u, m + n) == FlashTicks(FlashTicks(u, m), n)
    decreases m
  {
    if m > 0 {
      FlashTicksSplit(FlashTick(u), m - 1, n);
    }
  }

  /** An enemy the attacker strikes: within its radius and still alive. */
  predicate IsTarget(attacker: Unit, enemy: Unit) {
    InDamageRadius(attacker, enemy) && enemy.health > 0
  }

  /** One random number per enemy. */
  predicate RollsFor(rolls: seq<real>, enemies: seq<Unit>) {
    |rolls| == |enemies| && forall i :: 0 <= i < |rolls| ==> IsRandom(rolls[i])
  }

  /** The enemy after this attacker's strike round: hit if it was a target. */
  function Struck(attacker: Unit, enemy: Unit, rand: real): Unit
    requires IsRandom(rand)
  {
    if IsTarget(attacker, enemy) then TakeDamage(enemy, attacker, rand).0 else enemy
  }

  /** The strike round, in list order: every target takes exactly one hit,
      the others are untouched. Also says whether anything was hit. */
  function StrikeAll(attacker: Unit, enemies: seq<Unit>, rolls: seq<real>): (r: (seq<Unit>, bool))
    requires RollsFor(rolls, enemies)
    ensures |r.0| == |enemies|
    ensures forall i :: 0 <= i < |enemies| ==> r.0[i] == Struck(attacker, enemies[i], rolls[i])
    ensures r.1 <==> exists i :: 0 <= i < |enemies| && IsTarget(attacker, enemies[i])
    decreases |enemies|
  {
    if |enemies| == 0 then ([], false)
    else
      var rest := StrikeAll(attacker, enemies[1..], rolls[1..]);
      var r := ([Struck(attacker, enemies[0], rolls[0])] + rest.0,
                IsTarget(attacker, enemies[0]) || rest.1);
      assert forall i :: 1 <= i < |enemies| ==> r.0[i] == rest.0[i - 1];
      assert rest.1 ==> exists i :: 0 <= i < |enemies| && IsTarget(attacker, enemies[i]) by {
        if rest.1 {
          var j :| 0 <= j < |enemies| - 1 && IsTarget(attacker, enemies[1..][j]);
          assert IsTarget(attacker, enemies[j + 1]);
        }
      }
      assert (exists i :: 0 <= i < |enemies| && IsTarget(attacker, enemies[i])) ==> r.1 by {
        if i :| 0 <= i < |enemies| && IsTarget(attacker, enemies[i]) {
          if i > 0 {
            assert IsTarget(attacker, enemies[1..][i - 1]);
          }
        }
      }
      r
  }

  /** The result of one combat frame of a unit. */
  datatype CombatStep = CombatStep(attacker: Unit, enemies: seq<Unit>, alive: bool)

  /** Whether the attacker's cooldown has run out at `now`. */
  predicate CooledDown(u: Unit, now: int) {
    now - u.lastDamageTime >= u.damageInterval
  }

  /** Whether the attacker strikes this frame: alive and off cooldown. */
  predicate Strikes(u: Unit, now: int) {
    u.health > 0 && CooledDown(u, now)
  }

  /** One combat frame of `u` at time `now` (ms) against `enemies`. The flash
      counts down first. A dead unit signals its removal and strikes nobody.
      Once the cooldown has run out every target in `enemies` takes one hit,
      and the cooldown restarts at `now` only if something was hit. */
  function UpdateCombat(u: Unit, enemies: seq<Unit>, now: int, rolls: seq<real>): (r: CombatStep)
    requires RollsFor(rolls, enemies)
    ensures r.alive <==> u.health > 0
    ensures |r.enemies| == |enemies|
    ensures forall i :: 0 <= i < |enemies| ==>
              r.enemies[i] == if Strikes(u, now) then Struck(u, enemies[i], rolls[i]) else enemies[i]
    ensures !Strikes(u, now) ==> r.enemies == enemies
    ensures r.attacker.lastDamageTime ==
              if Strikes(u, now) && exists i :: 0 <= i < |enemies| && IsTarget(u, enemies[i])
              then now else u.lastDamageTime
    ensures r.attacker == FlashTick(u).(lastDamageTime := r.attacker.lastDamageTime)
  {
    var self := FlashTick(u);
    assert forall e :: IsTarget(self, e) == IsTarget(u, e);
    assert forall e, rand | IsRandom(rand) :: Struck(self, e, rand) == Struck(u, e, rand);
    if self.health <= 0 then CombatStep(self, enemies, false)
    else if now - self.lastDamageTime >= self.damageInterval then
      var (hit, any) := StrikeAll(self, enemies, rolls);
      CombatStep(if any then self.(lastDamageTime := now) else self, hit, true)
    else CombatStep(self, enemies, true)
  }

  /** The cooldown restarts only forwards: with a non-negative interval the
      attacker's last strike time never decreases. */
  lemma LastDamageTimeMonotone(u: Unit, enemies: seq<Unit>, now: int, rolls: seq<real>)
    requires RollsFor(rolls, enemies) && u.damageInterval >= 0
    ensures UpdateCombat(u, enemies, now, rolls).attacker.lastDamageTime >= u.lastDamageTime
  {
  }

  /** Health stays non-negative: enemies with health >= 0 still have it
      after any combat frame. */
  lemma HealthStaysNonNegative(u: Unit, enemies: seq<Unit>, now: int, rolls: seq<real>)
    requires RollsFor(rolls, enemies)
    requires forall i :: 0 <= i < |enemies| ==> enemies[i].health >= 0
    ensures var es := UpdateCombat(u, enemies, now, rolls).enemies;
            forall i :: 0 <= i < |es| ==> es[i].health >= 0
  {
  }

  /** The cooldown is the attacker's: after a frame that hit something at
      `t1`, a frame of the same attacker less than damageInterval later hits
      nobody, whoever it faces. */
  lemma CooldownBlocksRepeat(u: Unit, enemies: seq<Unit>, t1: int, rolls: seq<real>,
                             others: seq<Unit>, t2: int, rolls2: seq<real>)
    requires RollsFor(rolls, enemies) && RollsFor(rolls2, others)
    requires Strikes(u, t1) && exists i :: 0 <= i < |enemies| && IsTarget(u, enemies[i])
    requires t2 - t1 < u.damageInterval
    ensures var a := UpdateCombat(u, enemies, t1, rolls).attacker;
            UpdateCombat(a, others, t2, rolls2).enemies == others
  {
  }

  /** ... and a frame damageInterval or more later strikes again: every
      target then takes a hit. */
  lemma CooldownExpires(u: Unit, enemies: seq<Unit>, t1: int, rolls: seq<real>,
                        others: seq<Unit>, t2: int, rolls2: seq<real>, k: nat)
    requires RollsFor(rolls, enemies) && RollsFor(rolls2, others)
    requires u.health > 0 && t2 - t1 >= u.damageInterval && t2 - u.lastDamageTime >= u.damageInterval
    requires k < |others| && IsTarget(u, others[k])
    ensures var a := UpdateCombat(u, enemies, t1, rolls).attacker;
            UpdateCombat(a, others, t2, rolls2).enemies[k] == TakeDamage(others[k], u, rolls2[k]).0
  {
    var a := UpdateCombat(u, enemies, t1, rolls).attacker;
    var f := FlashTick(u);
    assert a == f.(lastDamageTime := a.lastDamageTime);
    assert a.lastDamageTime == t1 || a.lastDamageTime == u.lastDamageTime;
    assert a.health == u.health && a.damageInterval == u.damageInterval;
    assert Strikes(a, t2);
    assert IsTarget(a, others[k]) == IsTarget(u, others[k]);
    assert TakeDamage(others[k], a, rolls2[k]) == TakeDamage(others[k], u, rolls2[k]);
    var s := UpdateCombat(a, others, t2, rolls2);
    assert s.enemies[k] == Struck(a, others[k], rolls2[k]);
  }

  /** With no target in range when the cooldown runs out, the cooldown is not
      restarted: the unit stays ready and strikes the first frame a target
      shows up. */
  lemma ReadyWithoutTargetStaysReady(u: Unit, enemies: seq<Unit>, now: int, rolls: seq<real>)
    requires RollsFor(rolls, enemies) && Strikes(u, now)
    requires forall i :: 0 <= i < |enemies| ==> !IsTarget(u, enemies[i])
    ensures var s := UpdateCombat(u, enemies, now, rolls);
            s.enemies == enemies && s.attacker.lastDamageTime == u.lastDamageTime
  {
  }

  /** Two freshly spawned opposing units 30 apart: the attacker first strikes
      once its 1000 ms cooldown has run out from time 0, taking 10 to 25
      health off its opponent, and strikes nothing again 500 ms later. */
  lemma DuelOpening(rand: real, rand2: real)
    requires IsRandom(rand) && IsRandom(rand2)
    ensures var a := CreateBasicUnit(1, 0.0, 0.0, 40);
            var b := CreateBasicUnit(2, 30.0, 0.0, 40);
            && UpdateCombat(a, [b], 999, [rand]).enemies == [b]
            && var s := UpdateCombat(a, [b], 1000, [rand]);
               && 75 <= s.enemies[0].health <= 90
               && s.attacker.lastDamageTime == 1000
               && UpdateCombat(s.attacker, s.enemies, 1500, [rand2]).enemies == s.enemies
  {
    var a := CreateBasicUnit(1, 0.0, 0.0, 40);
    var b := CreateBasicUnit(2, 30.0, 0.0, 40);
    assert SqDist(a.x, a.y, b.x, b.y) == 900.0;
    assert IsTarget(a, b);
    var s := UpdateCombat(a, [b], 1000, [rand]);
    assert s.enemies[0] == TakeDamage(b, a, rand).0;
  }
}
