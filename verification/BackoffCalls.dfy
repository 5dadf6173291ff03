// The calls that a reconnect backoff receives between its construction and now.
module BackoffCalls {
  import opened MachineInts

  datatype Calls = Unused | Next(past: Calls, entropy: u32) | Reset(past: Calls)

  /** How many delays were produced since construction or the last reset. */
  function SinceReset(c: Calls): nat {
    match c
    case Unused => 0
    case Next(past, _) => SinceReset(past) + 1
    case Reset(_) => 0
  }
}
