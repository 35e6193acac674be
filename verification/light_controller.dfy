/** LightOnOffEventController: one on/off switch mirrored onto every Light
    below the controller's object. */
module LightSwitch {

  /** A Unity Light component; only its `enabled` flag is modelled. */
  class Light {
    var enabled: bool

    constructor (enabled: bool)
      ensures this.enabled == enabled
    {
      this.enabled := enabled;
    }
  }

  class LightOnOffEventController {
    /** _lights: null until Start has collected the child lights. */
    var lights: array?<Light>
    var isOn: bool

    /** Every collected light shows the switch's state. */
    predicate Mirrored()
      reads this, lights
      reads if lights == null then {} else set i | 0 <= i < lights.Length :: lights[i]
    {
      lights != null && forall i :: 0 <= i < lights.Length ==> lights[i].enabled == isOn
    }

    /** Field initialisers: no lights yet, switched off. */
    constructor ()
      ensures lights == null && !isOn
    {
      lights := null;
      isOn := false;
    }

    /** Start: keep the lights found below this object, inactive ones
        included, and switch each to the current state. `found` is what
        GetComponentsInChildren returns. */
    method Start(found: seq<Light>)
      modifies this, set l | l in found
      ensures lights != null && fresh(lights) && lights[..] == found
      ensures isOn == old(isOn)
      ensures Mirrored()
    {
      var collected := new Light[|found|](i requires 0 <= i < |found| => found[i]);
      lights := collected;
      for i := 0 to collected.Length
        invariant lights == collected && collected[..] == found && isOn == old(isOn)
        invariant forall k :: 0 <= k < i ==> collected[k].enabled == isOn
      {
        collected[i].enabled := isOn;
      }
    }

    /** Toggle: flip the state and show it on every light. Calling it before
        Start dereferences null in the source, hence the precondition. */
    method Toggle()
      requires lights != null
      modifies this, set i | 0 <= i < lights.Length :: lights[i]
      ensures isOn == !old(isOn)
      ensures lights == old(lights) && lights[..] == old(lights[..])
      ensures Mirrored()
    {
      isOn := !isOn;
      for i := 0 to lights.Length
        invariant lights == old(lights) && lights[..] == old(lights[..]) && isOn == !old(isOn)
        invariant forall k :: 0 <= k < i ==> lights[k].enabled == isOn
      {
        lights[i].enabled := isOn;
      }
    }

    /** Two toggles put the switch and every light back as they were. */
    method ToggleTwice()
      requires Mirrored()
      modifies this, set i | 0 <= i < lights.Length :: lights[i]
      ensures isOn == old(isOn)
      ensures lights == old(lights) && lights[..] == old(lights[..])
      ensures forall i :: 0 <= i < lights.Length ==> lights[i].enabled == old(lights[i].enabled)
    {
      Toggle();
      Toggle();
    }
  }
}
