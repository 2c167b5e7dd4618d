/** The requests the node sends to the arm, neck and audio side: arm pose
    sequences (`arm/play_sequence`), the two scripted neck motions and the
    audio files it plays. */
module Actuation {

  /** A `PlayArmSequence` request: named poses and the seconds each takes. */
  datatype ArmRequest = ArmRequest(frames: seq<string>, durations: seq<real>)

  /** An actuation command issued by the node. The neck motions are kept
      abstract (their float trajectories are not modelled); `times` is the
      repeat count the node passes. */
  datatype Command =
    | PlayArm(request: ArmRequest)
    | ShakeHead(times: nat)
    | NodHead(times: nat)
    | PlayWav(file: string)

  /** The pose that returns the arms to rest. */
  const Home: ArmRequest := ArmRequest(["home"], [2.0])

  /** A one-pose request for an idle-gesture pose. */
  function Pose(name: string): ArmRequest
  {
    ArmRequest([name], [2.0])
  }
}
