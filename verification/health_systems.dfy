/** `src/health/systems.rs`: applying health deltas to entities with a Health
    component, announcing deaths, and despawning the dead. */
module HealthSystems {
  import opened Components

  // ------------------------------------------------------------ one message

  /** `Ord::clamp` on integers. */
  function ClampInt(x: int, lo: int, hi: int): (r: int)
    requires lo <= hi
    ensures lo <= r <= hi
    ensures lo <= x <= hi ==> r == x
    ensures x < lo ==> r == lo
    ensures x > hi ==> r == hi
  {
    if x < lo then lo else if x > hi then hi else x
  }

  /** Two's-complement wrap of an integer into `i16`, as a release build
      evaluates an overflowing `i16` addition. */
  function WrapI16(x: int): (w: I16)
    ensures -32768 <= x < 32768 ==> w == x
    ensures (w - x) % 65536 == 0
  {
    (x + 32768) % 65536 - 32768
  }

  /** The new `current` exactly as written: the `i16` sum wraps before it is
      clamped into `0 ..= max`. */
  function WrappingNextCurrent(h: Health, delta: I16): (c: U8)
    ensures 0 <= c <= h.max
    ensures -32768 <= h.current + delta < 32768 ==> c == NextCurrent(h, delta)
  {
    ClampInt(WrapI16(h.current + delta), 0, h.max)
  }

  /** Large enough healing wraps round to a negative sum, which the clamp
      turns into death. */
  lemma {:induction false} WrappingHealKills()
    ensures WrappingNextCurrent(Health(10, 10), 32767) == 0
    ensures NextCurrent(Health(10, 10), 32767) == 10
  {
    assert WrapI16(10 + 32767) == -32759;
  }

  /** The new `current` after a delta: the sum clamped into `0 ..= max`. */
  function NextCurrent(h: Health, delta: I16): (c: U8)
    ensures 0 <= c <= h.max
    ensures 0 <= h.current + delta <= h.max ==> c == h.current + delta
    ensures h.current + delta <= 0 ==> c == 0
    ensures h.current + delta >= h.max ==> c == h.max
  {
    ClampInt(h.current + delta, 0, h.max)
  }

  /** Healing never lowers health and damage never raises it, for a health
      that is within its maximum. */
  lemma HealingNeverHurts(h: Health, delta: I16)
    requires h.current <= h.max
    ensures delta >= 0 ==> NextCurrent(h, delta) >= h.current
    ensures delta <= 0 ==> NextCurrent(h, delta) <= h.current
  {
  }

  // ---------------------------------------------------------- a whole batch

  /** The Health components and the death messages written so far. */
  datatype HealthState = HealthState(healths: map<Entity, Health>, deaths: seq<Death>)

  /** One message: an entity without Health is skipped; otherwise its health
      is updated and a death announced if it is now zero. */
  function Apply(s: HealthState, m: HealthChanged): (t: HealthState)
    ensures t.healths.Keys == s.healths.Keys
    ensures m.entity !in s.healths ==> t == s
    ensures forall e :: e in s.healths && e != m.entity ==> t.healths[e] == s.healths[e]
    ensures s.deaths <= t.deaths && |t.deaths| <= |s.deaths| + 1
    ensures |t.deaths| > |s.deaths| <==> m.entity in s.healths && t.healths[m.entity].current == 0
    ensures |t.deaths| > |s.deaths| ==> t.deaths[|s.deaths|] == Death(m.entity)
  {
    if m.entity in s.healths then
      var h := s.healths[m.entity];
      var c := NextCurrent(h, m.delta);
      HealthState(s.healths[m.entity := Health(h.max, c)],
                  s.deaths + (if c == 0 then [Death(m.entity)] else []))
    else s
  }

  /** The messages processed in order. */
  function Process(healths: map<Entity, Health>, messages: seq<HealthChanged>): (s: HealthState)
    ensures s.healths.Keys == healths.Keys
    ensures |s.deaths| <= |messages|
  {
    if messages == [] then HealthState(healths, [])
    else Apply(Process(healths, messages[..|messages| - 1]), messages[|messages| - 1])
  }

  predicate Named(messages: seq<HealthChanged>, e: Entity) {
    exists k :: 0 <= k < |messages| && messages[k].entity == e
  }

  predicate WithinMax(healths: map<Entity, Health>) {
    forall e :: e in healths ==> healths[e].current <= healths[e].max
  }

  /** No message changes a maximum, and every current ends within it. */
  lemma {:induction false} ProcessKeepsBounds(healths: map<Entity, Health>, messages: seq<HealthChanged>)
    requires WithinMax(healths)
    ensures WithinMax(Process(healths, messages).healths)
    ensures forall e :: e in healths ==> Process(healths, messages).healths[e].max == healths[e].max
  {
    if messages != [] {
      ProcessKeepsBounds(healths, messages[..|messages| - 1]);
    }
  }

  /** An entity no message names keeps its health. */
  lemma {:induction false} ProcessLeavesOthers(healths: map<Entity, Health>, messages: seq<HealthChanged>, e: Entity)
    requires e in healths && !Named(messages, e)
    ensures Process(healths, messages).healths[e] == healths[e]
  {
    if messages != [] {
      var init := messages[..|messages| - 1];
      assert !Named(init, e) by {
        forall k | 0 <= k < |init| ensures init[k] == messages[k] { }
      }
      ProcessLeavesOthers(healths, init, e);
    }
  }

  /** Every death announced is of an entity with Health that some message
      named. */
  lemma {:induction false} DeathsAreNamed(healths: map<Entity, Health>, messages: seq<HealthChanged>)
    ensures forall k :: 0 <= k < |Process(healths, messages).deaths| ==>
      var e := Process(healths, messages).deaths[k].entity;
      e in healths && Named(messages, e)
  {
    if messages != [] {
      var init := messages[..|messages| - 1];
      DeathsAreNamed(healths, init);
      forall e | Named(init, e) ensures Named(messages, e) {
        var k :| 0 <= k < |init| && init[k].entity == e;
        assert messages[k] == init[k];
      }
      assert messages[|messages| - 1].entity == messages[|messages| - 1].entity;
    }
  }

  /** An entity some message names that ends at zero health has had its death
      announced. */
  lemma {:induction false} ZeroHealthIsAnnounced(healths: map<Entity, Health>, messages: seq<HealthChanged>, e: Entity)
    requires e in healths && Named(messages, e)
    requires Process(healths, messages).healths[e].current == 0
    ensures Death(e) in Process(healths, messages).deaths
  {
    var init := messages[..|messages| - 1];
    var last := messages[|messages| - 1];
    if last.entity != e {
      assert Named(init, e) by {
        var k :| 0 <= k < |messages| && messages[k].entity == e;
        assert k < |messages| - 1 && init[k] == messages[k];
      }
      ZeroHealthIsAnnounced(healths, init, e);
    } else {
      assert Process(healths, messages).deaths[|Process(healths, messages).deaths| - 1] == Death(e);
    }
  }

  /** `n` one-point hits (what a brick collision sends) leave `current - n`
      health, never below zero, and announce a death once they reach zero. */
  lemma {:induction false} RepeatedHitsKill(healths: map<Entity, Health>, e: Entity, n: nat)
    requires e in healths && healths[e].current <= healths[e].max
    ensures var s := Process(healths, seq(n, _ => HealthChanged(e, -1)));
      && s.healths[e].current == (if healths[e].current >= n then healths[e].current - n else 0)
      && (n > 0 && n >= healths[e].current ==> Death(e) in s.deaths)
  {
    var hits := seq(n, _ => HealthChanged(e, -1));
    if n > 0 {
      var init := seq(n - 1, _ => HealthChanged(e, -1));
      assert hits[..n - 1] == init;
      RepeatedHitsKill(healths, e, n - 1);
      var before := Process(healths, init);
      assert Process(healths, hits) == Apply(before, HealthChanged(e, -1));
      assert Process(healths, hits).healths[e].current == NextCurrent(before.healths[e], -1);
      assert before.deaths <= Process(healths, hits).deaths;
    }
  }

  /** `handle_health_changed`, on the corrected sum. */
  method HandleHealthChanged(messages: seq<HealthChanged>, healths: map<Entity, Health>)
    returns (updated: map<Entity, Health>, deaths: seq<Death>)
    ensures HealthState(updated, deaths) == Process(healths, messages)
  {
    updated, deaths := healths, [];
    for i := 0 to |messages|
      invariant HealthState(updated, deaths) == Process(healths, messages[..i])
    {
      assert messages[..i + 1][..i] == messages[..i];
      var message := messages[i];
      if message.entity in updated {
        var health := updated[message.entity];
        var newHealth := ClampInt(health.current + message.delta, 0, health.max);
        updated := updated[message.entity := Health(health.max, newHealth)];
        if newHealth == 0 {
          deaths := deaths + [Death(message.entity)];
        }
      }
    }
    assert messages[..|messages|] == messages;
  }

  // ------------------------------------------------------------------ death

  /** `handle_death`: every entity a death message names is despawned; all
      others stay. */
  method HandleDeath(deaths: seq<Death>, alive: set<Entity>) returns (remaining: set<Entity>)
    ensures forall e :: e in remaining <==> e in alive && forall k :: 0 <= k < |deaths| ==> deaths[k].entity != e
  {
    remaining := alive;
    for i := 0 to |deaths|
      invariant forall e :: e in remaining <==> e in alive && forall k :: 0 <= k < i ==> deaths[k].entity != e
    {
      remaining := remaining - {deaths[i].entity};
    }
  }
}
