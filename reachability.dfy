/** The reachability flag `ping` derives from the exit status of `ping -c1 -W1`. */
module Reachability {

  /**
   * 0 for a positive exit status, 1 otherwise: a zero status and also a
   * negative one (the child killed by a signal) count as reachable.
   */
  function Ping(exitStatus: int): (flag: int)
    ensures flag == 0 || flag == 1
    ensures flag == 1 <==> exitStatus <= 0
  {
    if exitStatus > 0 then 0 else 1
  }
}
