/** `Message`: the three kinds of decoded message, each with its time stamp and its sender's address. */
module Messages {
  import Validators
  import Identifications
  import AirbornePositions
  import AirborneVelocities

  datatype Message =
    | Identification(aim: Identifications.AircraftIdentificationMessage)
    | Position(apm: AirbornePositions.AirbornePositionMessage)
    | Velocity(avm: AirborneVelocities.AirborneVelocityMessage)
  {
    /** `timeStampNs()`: the time of reception in nanoseconds. */
    function TimeStampNs(): int
    {
      match this
      case Identification(m) => m.timeStampNs
      case Position(m) => m.timeStampNs
      case Velocity(m) => m.timeStampNs
    }

    /** `icaoAddress()`: the address of the sender. */
    function IcaoAddress(): Validators.IcaoAddress
    {
      match this
      case Identification(m) => m.icaoAddress
      case Position(m) => m.icaoAddress
      case Velocity(m) => m.icaoAddress
    }
  }
}
