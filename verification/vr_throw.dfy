/** VRThrowSystemAdvanced: throws a grabbed object when the controller's
    button goes down. The XR device, the interaction toolkit and the scene's
    transforms are read through parameters: whether the interactable is
    selected, whether the button is pressed this frame, the controller's
    velocity, and the forward vectors of the holding interactor and of the
    camera in the current frame. */
module VRThrow {
  import opened Wrappers
  import opened Geometry

  /** UnityEngine.XR.XRNode. */
  datatype XRNode =
    | LeftEye | RightEye | CenterEye | Head | LeftHand | RightHand
    | GameController | TrackingReference | HardwareTracker

  /** The interactor holding the object, known by its game object's name.
      Its transform is read in the frame it is needed. */
  datatype Interactor = Interactor(name: string)

  /** ToLower on one character, for ASCII letters. */
  function LowerChar(c: char): (r: char)
    ensures !('A' <= r <= 'Z')
    ensures 'A' <= c <= 'Z' ==> r as int == c as int + 32
    ensures !('A' <= c <= 'Z') ==> r == c
  {
    if 'A' <= c <= 'Z' then (c as int + 32) as char else c
  }

  function Lower(s: string): (r: string)
    ensures |r| == |s| && forall i :: 0 <= i < |s| ==> r[i] == LowerChar(s[i])
  {
    if s == [] then [] else [LowerChar(s[0])] + Lower(s[1..])
  }

  /** w occurs in s starting at index i. */
  predicate OccursAt(s: string, w: string, i: nat) {
    i + |w| <= |s| && s[i..i + |w|] == w
  }

  lemma OccursShift(s: string, w: string, i: nat)
    requires |s| > 0 && i >= 1
    ensures OccursAt(s, w, i) <==> OccursAt(s[1..], w, i - 1)
  {
    if i + |w| <= |s| {
      var a, b := s[i..i + |w|], s[1..][i - 1..i - 1 + |w|];
      assert |a| == |b| && forall k :: 0 <= k < |a| ==> a[k] == b[k];
    }
  }

  /** string.Contains: w occurs in s somewhere. */
  function Contains(s: string, w: string): (r: bool)
    ensures r <==> exists i: nat :: OccursAt(s, w, i)
    decreases |s|
  {
    if |s| < |w| then false
    else if s[..|w|] == w then
      assert OccursAt(s, w, 0);
      true
    else
      var r := Contains(s[1..], w);
      if r then
        var i: nat :| OccursAt(s[1..], w, i);
        OccursShift(s, w, i + 1);
        true
      else
        forall i: nat | 1 <= i
          ensures !OccursAt(s, w, i)
        {
          OccursShift(s, w, i);
        }
        assert !OccursAt(s, w, 0);
        false
  }

  /** A vector of length 1. */
  predicate Unit(v: Vec3) {
    SqrLen(v) == 1.0
  }

  /** A unit vector is its own normalisation. */
  lemma UnitIsNormalized(v: Vec3)
    requires Unit(v)
    ensures NormalizedOf(v, v)
  {
    assert v == Scale(v, 1.0);
  }

  class VRThrowSystemAdvanced {
    /** Whether Start found an XRGrabInteractable, a Rigidbody and a camera. */
    const hasGrabInteractable: bool
    const hasRigidbody: bool
    const hasCamera: bool
    const useControllerDirection: bool

    var throwForce: real
    var controllerNode: XRNode
    var currentInteractor: Option<Interactor>
    var buttonWasPressedLastFrame: bool
    var throwDirectionCache: Vec3
    var controllerVelocityCache: Vec3
    /** How many throws were started: each cancels the selection and
        schedules ApplyThrowForce. */
    var throwsStarted: nat

    /** Start, with the serialized settings: the force, whether to throw
        along the controller (true) or the camera (false), and the hand.
        The inspector defaults are 10, true and the right hand. */
    constructor (hasGrabInteractable: bool, hasRigidbody: bool, hasCamera: bool,
                 throwForce: real, useControllerDirection: bool, controllerNode: XRNode)
      ensures this.hasGrabInteractable == hasGrabInteractable && this.hasRigidbody == hasRigidbody
      ensures this.hasCamera == hasCamera && this.useControllerDirection == useControllerDirection
      ensures this.throwForce == throwForce && this.controllerNode == controllerNode
      ensures currentInteractor.None? && !buttonWasPressedLastFrame && throwsStarted == 0
    {
      this.hasGrabInteractable := hasGrabInteractable;
      this.hasRigidbody := hasRigidbody;
      this.hasCamera := hasCamera;
      this.useControllerDirection := useControllerDirection;
      this.throwForce := throwForce;
      this.controllerNode := controllerNode;
      currentInteractor := None;
      buttonWasPressedLastFrame := false;
      throwDirectionCache := Zero;
      controllerVelocityCache := Zero;
      throwsStarted := 0;
    }

    /** IsGrabbed, given whether the toolkit reports the interactable
        selected. */
    predicate IsGrabbed(selected: bool): (g: bool)
      reads this
      ensures g <==> hasGrabInteractable && selected && currentInteractor.Some?
    {
      hasGrabInteractable && selected && currentInteractor.Some?
    }

    /** GetThrowDirection, from the forward vectors of the interactor's and
        the camera's transforms in this frame: the controller's if so
        configured and held, else the camera's, else the world's. */
    function GetThrowDirection(controllerForward: Vec3, cameraForward: Vec3): (d: Vec3)
      reads this
      ensures useControllerDirection && currentInteractor.Some? ==> d == controllerForward
      ensures !(useControllerDirection && currentInteractor.Some?) && hasCamera ==> d == cameraForward
      ensures !(useControllerDirection && currentInteractor.Some?) && !hasCamera ==> d == Forward
    {
      if useControllerDirection && currentInteractor.Some? then controllerForward
      else if hasCamera then cameraForward
      else Forward
    }

    /** While the object is held, a throw goes along the controller when so
        configured, and otherwise along the camera or, without one, world
        forward. */
    lemma HeldThrowDirection(selected: bool, controllerForward: Vec3, cameraForward: Vec3)
      requires IsGrabbed(selected)
      ensures useControllerDirection ==> GetThrowDirection(controllerForward, cameraForward) == controllerForward
      ensures !useControllerDirection ==>
        GetThrowDirection(controllerForward, cameraForward) == if hasCamera then cameraForward else Forward
    {
    }

    /** Transform forward vectors have length 1, so the throw direction has
        length 1 and normalising it changes nothing. */
    lemma ThrowDirectionIsUnit(controllerForward: Vec3, cameraForward: Vec3)
      requires Unit(controllerForward) && Unit(cameraForward)
      ensures Unit(GetThrowDirection(controllerForward, cameraForward))
      ensures NormalizedOf(GetThrowDirection(controllerForward, cameraForward), GetThrowDirection(controllerForward, cameraForward))
    {
      assert Unit(Forward);
      UnitIsNormalized(GetThrowDirection(controllerForward, cameraForward));
    }

    /** OnGrabbed: remember the interactor and pick the hand from its name,
        "left" before "right"; other names leave the node alone. */
    method OnGrabbed(interactor: Option<Interactor>)
      modifies this
      ensures currentInteractor == interactor
      ensures interactor.None? ==> controllerNode == old(controllerNode)
      ensures interactor.Some? ==>
        var name := Lower(interactor.value.name);
        && (Contains(name, "left") ==> controllerNode == LeftHand)
        && (!Contains(name, "left") && Contains(name, "right") ==> controllerNode == RightHand)
        && (!Contains(name, "left") && !Contains(name, "right") ==> controllerNode == old(controllerNode))
      ensures throwForce == old(throwForce) && buttonWasPressedLastFrame == old(buttonWasPressedLastFrame)
      ensures throwDirectionCache == old(throwDirectionCache) && controllerVelocityCache == old(controllerVelocityCache)
      ensures throwsStarted == old(throwsStarted)
    {
      currentInteractor := interactor;
      if currentInteractor.Some? {
        var controllerName := Lower(currentInteractor.value.name);
        if Contains(controllerName, "left") {
          controllerNode := LeftHand;
        } else if Contains(controllerName, "right") {
          controllerNode := RightHand;
        }
      }
    }

    /** OnReleased: forget the interactor and the button. */
    method OnReleased()
      modifies this
      ensures currentInteractor.None? && !buttonWasPressedLastFrame
      ensures !IsGrabbed(true)
      ensures throwForce == old(throwForce) && controllerNode == old(controllerNode)
      ensures throwDirectionCache == old(throwDirectionCache) && controllerVelocityCache == old(controllerVelocityCache)
      ensures throwsStarted == old(throwsStarted)
    {
      currentInteractor := None;
      buttonWasPressedLastFrame := false;
    }

    /** ThrowObject: unless the object is held and has a Rigidbody, only a
        warning; otherwise store the normalised direction of this frame and
        the controller's velocity, and start the throw. */
    method ThrowObject(selected: bool, controllerVelocity: Vec3, controllerForward: Vec3, cameraForward: Vec3)
      returns (thrown: bool)
      requires Unit(controllerForward) && Unit(cameraForward)
      modifies this
      ensures thrown == (old(IsGrabbed(selected)) && hasRigidbody)
      ensures !thrown ==> unchanged(this)
      ensures thrown ==>
        && NormalizedOf(throwDirectionCache, old(GetThrowDirection(controllerForward, cameraForward)))
        && throwDirectionCache == old(GetThrowDirection(controllerForward, cameraForward))
        && Unit(throwDirectionCache)
        && controllerVelocityCache == controllerVelocity
        && throwsStarted == old(throwsStarted) + 1
      ensures throwForce == old(throwForce) && controllerNode == old(controllerNode)
      ensures currentInteractor == old(currentInteractor) && buttonWasPressedLastFrame == old(buttonWasPressedLastFrame)
    {
      if !IsGrabbed(selected) || !hasRigidbody {
        thrown := false;
        return;
      }
      var throwDirection := GetThrowDirection(controllerForward, cameraForward);
      ThrowDirectionIsUnit(controllerForward, cameraForward);
      throwsStarted := throwsStarted + 1;
      throwDirectionCache := throwDirection;
      controllerVelocityCache := controllerVelocity;
      thrown := true;
    }

    /** Update for one frame: nothing unless grabbed; a throw when the button
        is pressed now and was not pressed last frame; then remember the
        button. */
    method Update(selected: bool, buttonPressed: bool, controllerVelocity: Vec3,
                  controllerForward: Vec3, cameraForward: Vec3) returns (thrown: bool)
      requires Unit(controllerForward) && Unit(cameraForward)
      modifies this
      ensures !old(IsGrabbed(selected)) ==> unchanged(this) && !thrown
      ensures old(IsGrabbed(selected)) ==>
        && buttonWasPressedLastFrame == buttonPressed
        && (thrown <==> buttonPressed && !old(buttonWasPressedLastFrame) && hasRigidbody)
        && throwsStarted == old(throwsStarted) + (if thrown then 1 else 0)
        && currentInteractor == old(currentInteractor)
      ensures thrown ==>
        && throwDirectionCache == old(GetThrowDirection(controllerForward, cameraForward))
        && controllerVelocityCache == controllerVelocity
      ensures !thrown ==> throwDirectionCache == old(throwDirectionCache) && controllerVelocityCache == old(controllerVelocityCache)
      ensures throwForce == old(throwForce) && controllerNode == old(controllerNode)
    {
      thrown := false;
      if !IsGrabbed(selected) {
        return;
      }
      if buttonPressed && !buttonWasPressedLastFrame {
        thrown := ThrowObject(selected, controllerVelocity, controllerForward, cameraForward);
      }
      buttonWasPressedLastFrame := buttonPressed;
    }

    /** Holding the button down over frames throws once: the second frame
        sees the button already down. The throw goes where the controller
        points in the first frame, wherever it points later. */
    method HoldButtonTwoFrames(controllerVelocity: Vec3, firstForward: Vec3, secondForward: Vec3, cameraForward: Vec3)
      returns (first: bool, second: bool)
      requires IsGrabbed(true) && hasRigidbody && !buttonWasPressedLastFrame && useControllerDirection
      requires Unit(firstForward) && Unit(secondForward) && Unit(cameraForward)
      modifies this
      ensures first && !second
      ensures throwsStarted == old(throwsStarted) + 1
      ensures throwDirectionCache == firstForward
    {
      first := Update(true, true, controllerVelocity, firstForward, cameraForward);
      second := Update(true, true, controllerVelocity, secondForward, cameraForward);
    }

    /** SetControllerNode. */
    method SetControllerNode(newNode: XRNode)
      modifies this
      ensures controllerNode == newNode
      ensures throwForce == old(throwForce) && currentInteractor == old(currentInteractor)
      ensures buttonWasPressedLastFrame == old(buttonWasPressedLastFrame) && throwsStarted == old(throwsStarted)
      ensures throwDirectionCache == old(throwDirectionCache) && controllerVelocityCache == old(controllerVelocityCache)
    {
      controllerNode := newNode;
    }

    /** SetThrowForce: negative forces are clamped to 0. */
    method SetThrowForce(newForce: real)
      modifies this
      ensures throwForce >= 0.0
      ensures newForce >= 0.0 ==> throwForce == newForce
      ensures newForce < 0.0 ==> throwForce == 0.0
      ensures controllerNode == old(controllerNode) && currentInteractor == old(currentInteractor)
      ensures buttonWasPressedLastFrame == old(buttonWasPressedLastFrame) && throwsStarted == old(throwsStarted)
      ensures throwDirectionCache == old(throwDirectionCache) && controllerVelocityCache == old(controllerVelocityCache)
    {
      throwForce := if 0.0 >= newForce then 0.0 else newForce;
    }
  }

  /** Names are compared in lower case: "Left" anywhere in a name counts. */
  lemma {:induction false} NameWithLeft(a: string, b: string)
    ensures Contains(Lower(a + "Left" + b), "left")
  {
    var name := a + "Left" + b;
    var s := Lower(name);
    forall k | 0 <= k < 4
      ensures s[|a| + k] == "left"[k]
    {
      assert name[|a| + k] == "Left"[k];
    }
    assert s[|a|..|a| + 4] == "left";
    assert OccursAt(s, "left", |a|);
  }

  /** The same for "Right". */
  lemma {:induction false} NameWithRight(a: string, b: string)
    ensures Contains(Lower(a + "Right" + b), "right")
  {
    var name := a + "Right" + b;
    var s := Lower(name);
    forall k | 0 <= k < 5
      ensures s[|a| + k] == "right"[k]
    {
      assert name[|a| + k] == "Right"[k];
    }
    assert s[|a|..|a| + 5] == "right";
    assert OccursAt(s, "right", |a|);
  }
}
