/**
 * The demo HealthService: a current and a maximum health, both C# `int`.
 * C# integer arithmetic is unchecked by default, so `+=` and `-=` wrap
 * around modulo 2^32; Mathf.Min and Mathf.Clamp on ints are exact.
 */
module Health {

  newtype int32 = x: int | -0x8000_0000 <= x < 0x8000_0000

  const IntMin: int := -0x8000_0000
  const IntMax: int := 0x7fff_ffff
  const Modulus: int := 0x1_0000_0000

  /** The two's-complement value of `x`: the int32 congruent to it modulo 2^32. */
  function Wrap32(x: int): (r: int32)
    ensures (r as int - x) % Modulus == 0
    ensures IntMin <= x <= IntMax ==> r as int == x
  {
    var m := x % Modulus;
    if m <= IntMax then m as int32 else (m - Modulus) as int32
  }

  /** Mathf.Min on ints. */
  function Min(a: int32, b: int32): (r: int32)
    ensures r <= a && r <= b && (r == a || r == b)
  {
    if a <= b then a else b
  }

  /** Mathf.Clamp on ints: below `lo` gives `lo`, otherwise above `hi` gives `hi`. */
  function Clamp(v: int32, lo: int32, hi: int32): (r: int32)
    ensures lo <= hi ==> lo <= r <= hi
    ensures lo <= v <= hi ==> r == v
    ensures v < lo ==> r == lo
    ensures lo <= v && hi < v ==> r == hi
  {
    if v < lo then lo else if v > hi then hi else v
  }

  /** Health after TakeDamage(amount): old health minus amount, wrapped, with no lower bound. */
  function AfterDamage(health: int32, amount: int32): (r: int32)
    ensures IntMin <= health as int - amount as int <= IntMax ==> r as int == health as int - amount as int
  {
    Wrap32(health as int - amount as int)
  }

  /** Health after Heal(amount), as written: old health plus amount, wrapped, then capped at the maximum. */
  function AfterHeal(health: int32, amount: int32, maxHealth: int32): (r: int32)
    ensures r <= maxHealth
    ensures IntMin <= health as int + amount as int <= IntMax ==> r as int == if health as int + amount as int <= maxHealth as int then health as int + amount as int else maxHealth as int
  {
    Min(Wrap32(health as int + amount as int), maxHealth)
  }

  /** Health after SetHealth(h): h clamped to [0, maxHealth], whatever the health was. */
  function AfterSetHealth(h: int32, maxHealth: int32): (r: int32)
    requires 0 <= maxHealth
    ensures 0 <= r <= maxHealth
    ensures 0 <= h <= maxHealth ==> r == h
    ensures h < 0 ==> r == 0
    ensures h > maxHealth ==> r == maxHealth
  {
    Clamp(h, 0, maxHealth)
  }

  class HealthService {
    var health: int32
    var maxHealth: int32

    /** `_maxHealth` keeps its initial value: no method assigns it. */
    ghost predicate Valid()
      reads this
    {
      maxHealth == 100
    }

    constructor ()
      ensures Valid() && health == 100 && maxHealth == 100
    {
      health, maxHealth := 100, 100;
    }

    method TakeDamage(amount: int32)
      requires Valid()
      modifies this
      ensures Valid() && maxHealth == old(maxHealth)
      ensures health == AfterDamage(old(health), amount)
    {
      health := Wrap32(health as int - amount as int);
    }

    method Heal(amount: int32)
      requires Valid()
      modifies this
      ensures Valid() && maxHealth == old(maxHealth)
      ensures health == AfterHeal(old(health), amount, maxHealth)
    {
      health := Wrap32(health as int + amount as int);
      health := Min(health, maxHealth);
    }

    method SetHealth(h: int32)
      requires Valid()
      modifies this
      ensures Valid() && maxHealth == old(maxHealth)
      ensures health == AfterSetHealth(h, maxHealth)
    {
      health := Clamp(h, 0, maxHealth);
    }
  }

  /**
   * SetHealth is idempotent: the result does not depend on the previous
   * health, so SetHealth(h) twice leaves what SetHealth(h) once leaves, and
   * setting the health to the value SetHealth produced changes nothing.
   */
  lemma SetHealthIdempotent(h: int32, maxHealth: int32)
    requires 0 <= maxHealth
    ensures AfterSetHealth(AfterSetHealth(h, maxHealth), maxHealth) == AfterSetHealth(h, maxHealth)
  {
  }

  /** Damage has no lower bound: enough of it takes the health below zero. */
  lemma DamageCanGoNegative()
    ensures AfterDamage(100, 150) == -50
  {
  }

  /**
   * As written, Heal can lower the health: at full health, Heal(int.MaxValue)
   * wraps the sum around and leaves the health far below zero.
   */
  lemma HealOverflowLowersHealth()
    ensures AfterHeal(100, 0x7fff_ffff, 100) == -0x7fff_ff9d
  {
  }

  /** The sum `a + b` saturated to the int range instead of wrapped. */
  function SaturatingAdd(a: int32, b: int32): (r: int32)
    ensures IntMin <= a as int + b as int <= IntMax ==> r as int == a as int + b as int
    ensures a as int + b as int > IntMax ==> r as int == IntMax
    ensures a as int + b as int < IntMin ==> r as int == IntMin
  {
    var s := a as int + b as int;
    if s > IntMax then IntMax as int32 else if s < IntMin then IntMin as int32 else s as int32
  }

  /** Heal as evidently intended: the sum is not allowed to wrap before the cap applies. */
  function AfterHealIntended(health: int32, amount: int32, maxHealth: int32): (r: int32)
    ensures r <= maxHealth
  {
    Min(SaturatingAdd(health, amount), maxHealth)
  }

  /**
   * For a non-negative amount the intended Heal reaches exactly
   * min(health + amount, maxHealth), never lowers a health that is at most the
   * maximum, and agrees with Heal as written whenever the sum does not overflow.
   * A health above the maximum (reachable through TakeDamage with a negative
   * amount) is lowered to the maximum.
   */
  lemma IntendedHealNeverLowers(health: int32, amount: int32, maxHealth: int32)
    requires 0 <= amount
    ensures health <= maxHealth ==> health <= AfterHealIntended(health, amount, maxHealth)
    ensures AfterHealIntended(health, amount, maxHealth) as int ==
      if health as int + amount as int <= maxHealth as int then health as int + amount as int else maxHealth as int
    ensures health as int + amount as int <= IntMax ==>
      AfterHealIntended(health, amount, maxHealth) == AfterHeal(health, amount, maxHealth)
  {
  }
}
