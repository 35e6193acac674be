/** BreakArea: a trigger zone that turns a fast enough collision into damage
    for the breakable object that hit it. */
module BreakAreas {
  import opened Geometry
  import opened DamageSystem

  /** What a collision offers the handler. `speed` is the magnitude of
      `relativeVelocity`; `contacts` are the contact points' positions. */
  datatype Collision = Collision(
    hasDamageable: bool,
    relativeVelocity: Vec3,
    speed: real,
    contacts: seq<Vec3>,
    otherPosition: Vec3)

  /** `speed` really is the length of the relative velocity. */
  predicate SpeedOf(c: Collision) {
    c.speed >= 0.0 && c.speed * c.speed == SqrLen(c.relativeVelocity)
  }

  /** How OnCollisionEnter ends. ContactMissing stands for the exception the
      source raises when it reads the first contact of an empty list. */
  datatype Outcome = NoDamageable | TooSlow | ContactMissing | Damage(info: DamageInfo)

  const DefaultBreakForce: real := 10.0
  const DefaultMinimumBreakVelocity: real := 5.0

  function Max(a: real, b: real): (m: real)
    ensures m >= a && m >= b && (m == a || m == b)
  {
    if a >= b then a else b
  }

  datatype BreakArea = BreakArea(breakForce: real, minimumBreakVelocity: real, position: Vec3) {

    /** OnCollisionEnter: the DamageInfo handed to the other object's
        DoDamage, if any. `hitDir` is the normalised direction from this area
        to the other object, which the platform computes. */
    function OnCollisionEnter(c: Collision, hitDir: Vec3): (r: Outcome)
      requires SpeedOf(c)
      requires NormalizedOf(hitDir, Sub(c.otherPosition, position))
      ensures r.NoDamageable? <==> !c.hasDamageable
      ensures r.TooSlow? <==> c.hasDamageable && c.speed < minimumBreakVelocity
      ensures r.ContactMissing? <==> c.hasDamageable && c.speed >= minimumBreakVelocity && |c.contacts| == 0
      ensures r.Damage? ==>
        && r.info.hitPoint == c.contacts[0]
        && r.info.hitDir == hitDir
        && r.info.hitForce >= breakForce
        && r.info.hitForce >= c.speed * breakForce
        && (r.info.hitForce == breakForce || r.info.hitForce == c.speed * breakForce)
        && r.info.(hitPoint := Zero, hitDir := Zero, hitForce := 0.0) == NewDamageInfo()
    {
      if !c.hasDamageable then NoDamageable
      else if c.speed < minimumBreakVelocity then TooSlow
      else if |c.contacts| == 0 then ContactMissing
      else
        var info := NewDamageInfo();
        var info := info.(hitPoint := c.contacts[0]);
        var info := info.(hitDir := hitDir);
        Damage(info.(hitForce := Max(breakForce, c.speed * breakForce)))
    }
  }

  /** Once the threshold is at least 1, any collision that deals damage does
      so with a force proportional to its speed: the floor never applies.
      The defaults (10 and 5) are such a configuration. */
  lemma {:induction false} ForceProportionalToSpeed(area: BreakArea, c: Collision, hitDir: Vec3)
    requires area.minimumBreakVelocity >= 1.0 && area.breakForce >= 0.0
    requires SpeedOf(c)
    requires NormalizedOf(hitDir, Sub(c.otherPosition, area.position))
    ensures area.OnCollisionEnter(c, hitDir).Damage? ==>
      area.OnCollisionEnter(c, hitDir).info.hitForce == c.speed * area.breakForce
  {
    var r := area.OnCollisionEnter(c, hitDir);
    if r.Damage? {
      assert c.speed >= 1.0;
      assert c.speed * area.breakForce - area.breakForce == (c.speed - 1.0) * area.breakForce;
      ProductNonNegative(c.speed - 1.0, area.breakForce);
    }
  }

  /** With the defaults, a collision deals damage exactly when it involves a
      damageable object, has a contact and is at least 5 units per second. */
  lemma DefaultThreshold(c: Collision, hitDir: Vec3, position: Vec3)
    requires SpeedOf(c)
    requires NormalizedOf(hitDir, Sub(c.otherPosition, position))
    ensures var area := BreakArea(DefaultBreakForce, DefaultMinimumBreakVelocity, position);
      area.OnCollisionEnter(c, hitDir).Damage? <==> c.hasDamageable && c.speed >= 5.0 && |c.contacts| > 0
  {
  }
}
