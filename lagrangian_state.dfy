/** The states a Lagrangian particle can be in during tracking, the groups
    particles are sorted into, and the two conversions between them.

    Both enumerations are scoped enums over `label`, and the conversions
    cast arbitrary label values into them, so a state or group is any
    label. `label` is taken as a 32-bit integer. The offset arithmetic of
    the default branches overflows at a few labels next to the ends of the
    range; the model gives those the two's-complement wrap. */
module LagrangianStates {

  const LabelMin: int := -0x8000_0000
  const LabelMax: int := 0x7fff_ffff

  newtype Label = x: int | -0x8000_0000 <= x <= 0x7fff_ffff

  /** Two's-complement reduction of an integer into the label range. */
  function Wrap(x: int): (l: Label)
    ensures LabelMin <= x <= LabelMax ==> l as int == x
    ensures (l as int - x) % 0x1_0000_0000 == 0
  {
    ((x - LabelMin) % 0x1_0000_0000 + LabelMin) as Label
  }

  // LagrangianState
  const StateNone: Label := -0x8000_0000
  const StateComplete: Label := 0
  const StateInCell: Label := 1
  const StateOnInternalFace: Label := 2
  const StateOnPatchZero: Label := 3
  const StateToBeRemoved: Label := 0x7fff_fffe

  // LagrangianGroup
  const GroupNone: Label := -0x8000_0000
  const GroupComplete: Label := 0
  const GroupInInternalMesh: Label := 1
  const GroupOnPatchZero: Label := 2
  const GroupToBeRemoved: Label := 0x7fff_fffe

  /** The group a particle in a given state belongs to. */
  function StateToGroup(state: Label): (group: Label) {
    if state == StateNone then GroupNone
    else if state == StateComplete then GroupComplete
    else if state == StateInCell then GroupInInternalMesh
    else if state == StateOnInternalFace then GroupInInternalMesh
    else if state == StateToBeRemoved then GroupToBeRemoved
    else Wrap(Wrap(state as int - StateOnPatchZero as int) as int + GroupOnPatchZero as int)
  }

  /** The state of a particle of a given group; an internal-mesh particle's
      state is unknown and reported as none. */
  function GroupToState(group: Label): (state: Label) {
    if group == GroupNone then StateNone
    else if group == GroupComplete then StateComplete
    else if group == GroupInInternalMesh then StateNone
    else if group == GroupToBeRemoved then StateToBeRemoved
    else Wrap(Wrap(group as int - GroupOnPatchZero as int) as int + StateOnPatchZero as int)
  }

  /** Both in-cell and on-internal-face particles are in the internal mesh,
      and the named states map onto the same-named groups. */
  lemma NamedStatesToGroups()
    ensures StateToGroup(StateInCell) == GroupInInternalMesh
    ensures StateToGroup(StateOnInternalFace) == GroupInInternalMesh
    ensures StateToGroup(StateNone) == GroupNone
    ensures StateToGroup(StateComplete) == GroupComplete
    ensures StateToGroup(StateToBeRemoved) == GroupToBeRemoved
    ensures StateToGroup(StateOnPatchZero) == GroupOnPatchZero
  {
  }

  /** The named groups map onto the same-named states, except the internal
      mesh, whose state is unknown. */
  lemma NamedGroupsToStates()
    ensures GroupToState(GroupNone) == StateNone
    ensures GroupToState(GroupComplete) == StateComplete
    ensures GroupToState(GroupInInternalMesh) == StateNone
    ensures GroupToState(GroupToBeRemoved) == StateToBeRemoved
    ensures GroupToState(GroupOnPatchZero) == StateOnPatchZero
  {
  }

  /** The wrapped offset arithmetic equals plain arithmetic on its result
      whenever that result is a label. */
  lemma WrapTwice(x: int, a: int, b: int)
    requires LabelMin <= x <= LabelMax && -3 <= a <= 3 && -3 <= b <= 3
    ensures Wrap(Wrap(x + a) as int + b) == Wrap(x + a + b)
  {
  }

  /** Patch state onPatchZero + k is in patch group onPatchZero + k, for
      every patch k below the to-be-removed state. */
  lemma PatchStateToGroup(k: nat)
    requires StateOnPatchZero as int + k < StateToBeRemoved as int
    ensures StateToGroup((StateOnPatchZero as int + k) as Label) == (GroupOnPatchZero as int + k) as Label
    ensures GroupToState((GroupOnPatchZero as int + k) as Label) == (StateOnPatchZero as int + k) as Label
  {
    WrapTwice(StateOnPatchZero as int + k, -3, 2);
    WrapTwice(GroupOnPatchZero as int + k, -2, 3);
  }

  /** Any state outside the named ones is shifted down by one. */
  lemma StateToGroupShift(state: Label)
    requires state != StateNone && state != StateComplete && state != StateInCell
    requires state != StateOnInternalFace && state != StateToBeRemoved
    ensures StateToGroup(state) as int == state as int - 1
  {
    WrapTwice(state as int, -3, 2);
  }

  /** Any group outside the named ones is shifted up by one, wrapping at
      the largest label. */
  lemma GroupToStateShift(group: Label)
    requires group != GroupNone && group != GroupComplete && group != GroupInInternalMesh
    requires group != GroupToBeRemoved
    ensures group as int < LabelMax ==> GroupToState(group) as int == group as int + 1
    ensures group as int == LabelMax ==> GroupToState(group) == StateNone
  {
    WrapTwice(group as int, -2, 3);
  }

  /** Converting a state to its group and back recovers the state exactly
      when the state is neither an internal-mesh state nor one of the two
      labels whose shifted value lands on a named group (the label just
      above none, and the largest label). */
  lemma StateRoundTrip(state: Label)
    ensures GroupToState(StateToGroup(state)) == state
        <==> (state != StateInCell && state != StateOnInternalFace
              && state as int != LabelMin + 1 && state as int != LabelMax)
  {
    if state != StateNone && state != StateComplete && state != StateInCell
       && state != StateOnInternalFace && state != StateToBeRemoved {
      StateToGroupShift(state);
      var g := StateToGroup(state);
      if g != GroupNone && g != GroupComplete && g != GroupInInternalMesh && g != GroupToBeRemoved {
        GroupToStateShift(g);
      }
    }
  }

  /** Converting a group to a state and back recovers the group exactly
      when the group is not the internal mesh and not one of the three
      labels whose shifted value lands on a named state (-1, which lands on
      complete, the label just below to-be-removed, and the largest
      label). */
  lemma GroupRoundTrip(group: Label)
    ensures StateToGroup(GroupToState(group)) == group
        <==> (group != GroupInInternalMesh && group != -1
              && group as int != LabelMax - 2 && group as int != LabelMax)
  {
    if group != GroupNone && group != GroupComplete && group != GroupInInternalMesh
       && group != GroupToBeRemoved {
      GroupToStateShift(group);
      var s := GroupToState(group);
      if s != StateNone && s != StateComplete && s != StateInCell && s != StateOnInternalFace
         && s != StateToBeRemoved {
        StateToGroupShift(s);
      }
    }
  }
}
