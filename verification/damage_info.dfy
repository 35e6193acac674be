/** The damage record passed from whatever hits a breakable object to the
    object that breaks. */
module DamageSystem {
  import opened Wrappers
  import opened Geometry

  datatype DamageType = Explosion | Shoot

  /** UnityEngine.ForceMode. */
  datatype ForceMode = Force | Acceleration | Impulse | VelocityChange

  /** DamageInfo. It has no behaviour of its own and its fields are only ever
      filled in after construction, so it is modelled as a value. The sender
      is the id of a game object, None standing for null. */
  datatype DamageInfo = DamageInfo(
    dmg: real,
    hitDir: Vec3,
    hitPoint: Vec3,
    explosionRadius: real,
    upwardsModifier: real,
    hitForce: real,
    forceMode: ForceMode,
    damageType: DamageType,
    canDismember: bool,
    sender: Option<nat>)

  /** new DamageInfo(): every field at its declared default. */
  function NewDamageInfo(): (d: DamageInfo)
    ensures d.dmg == 0.0 && d.explosionRadius == 0.0 && d.upwardsModifier == 0.0 && d.hitForce == 0.0
    ensures d.hitDir == Zero && d.hitPoint == Zero
    ensures d.forceMode.Impulse? && d.damageType.Shoot?
    ensures !d.canDismember && d.sender.None?
  {
    DamageInfo(0.0, Zero, Zero, 0.0, 0.0, 0.0, Impulse, Shoot, false, None)
  }
}
