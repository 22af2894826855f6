/** Orientation labels and the tilt-angle decision ladder of `getPositionFromAcc`.
    Pitch and roll (degrees) and the vertical acceleration `az` (in g) are taken as
    already computed; the floating-point `atan2`/`sqrt` that produce them are not modelled. */
module Orientation {

  datatype Label = Normal | Left | Right | Front | Back | Down

  /** The label as the sketch spells it: the string it returns, logs and compares with "Normal". */
  function Name(l: Label): (s: string)
    ensures |s| >= 4
    ensures s == "Normal" <==> l == Normal
  {
    match l
    case Normal => "Normal"
    case Left => "Left"
    case Right => "Right"
    case Front => "Front"
    case Back => "Back"
    case Down => "Down"
  }

  /** Distinct labels have distinct names, so `pos != "Normal"` is the same test as `l != Normal`. */
  lemma NameInjective(a: Label, b: Label)
    requires Name(a) == Name(b)
    ensures a == b
  {
  }

  /** Threshold on the tilt angles, in degrees. */
  const TiltLimit: real := 40.0
  /** Below this vertical acceleration (in g) the device is considered upside down. */
  const DownLimit: real := 0.3

  /** The ladder: first match wins, pitch before roll before the flat check. Each label is
      characterised by the region of (pitch, roll, az) it covers; the regions partition the input. */
  function Classify(pitch: real, roll: real, az: real): (l: Label)
    ensures l == Left <==> pitch > TiltLimit
    ensures l == Right <==> pitch < -TiltLimit
    ensures l == Back <==> -TiltLimit <= pitch <= TiltLimit && roll > TiltLimit
    ensures l == Front <==> -TiltLimit <= pitch <= TiltLimit && roll < -TiltLimit
    ensures l == Down <==> -TiltLimit <= pitch <= TiltLimit && -TiltLimit <= roll <= TiltLimit && az < DownLimit
    ensures l == Normal <==> -TiltLimit <= pitch <= TiltLimit && -TiltLimit <= roll <= TiltLimit && az >= DownLimit
  {
    if pitch > TiltLimit then Left
    else if pitch < -TiltLimit then Right
    else if roll > TiltLimit then Back
    else if roll < -TiltLimit then Front
    else if az < DownLimit then Down
    else Normal
  }

  /** Pitch dominates: a forward lean above the limit is `Left` whatever roll and az are. */
  lemma PitchDominates(pitch: real, roll: real, az: real, roll': real, az': real)
    requires pitch > TiltLimit
    ensures Classify(pitch, roll, az) == Classify(pitch, roll', az') == Left
  {
  }

  /** A device lying flat and upright (pitch = roll = 0, az = 1 g) reads `Normal`. */
  lemma FlatIsNormal()
    ensures Classify(0.0, 0.0, 1.0) == Normal
  {
  }
}
