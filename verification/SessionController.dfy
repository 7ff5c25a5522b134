/**
  The keep-alive of the lock's session: pings the connection once in a period,
  and tells the event handler when it has failed.
  */
module SessionController {

  const DEFAULT_FAILURE_THRESHOLD := 2

  class Controller {
    // how many failures in a row are tolerated
    var failureThreshold: nat
    var failureCount: nat
    var reported: bool

    // The threshold that is asked for, or the default one, is not stored.
    constructor (threshold: nat)
      ensures failureThreshold == 0 && failureCount == 0 && !reported
    {
      var t := if threshold == 0 then DEFAULT_FAILURE_THRESHOLD else threshold;
      failureThreshold, failureCount, reported := 0, 0, false;
    }

    // pings tells which of the pings succeed, until the context is done. The first that fails ends
    // the loop; it is reported only if the threshold allows for no failure at all.
    method Run(pings: seq<bool>) returns (sent: nat)
      requires failureCount == 0 && !reported
      modifies `failureCount, `reported
      ensures reported <==> failureThreshold == 0 && exists i :: 0 <= i < |pings| && !pings[i]
      ensures sent <= |pings| && (forall i :: 0 <= i < sent - 1 ==> pings[i])
      ensures sent < |pings| ==> sent > 0 && !pings[sent - 1]
    {
      sent := 0;
      while sent < |pings|
        invariant sent <= |pings| && failureCount == 0 && !reported
        invariant forall i :: 0 <= i < sent ==> pings[i]
      {
        sent := sent + 1;
        if !pings[sent - 1] {
          failureCount := failureCount + 1;
          if failureCount > failureThreshold {
            reported := true;
          }
          return;
        }
        failureCount := 0;
      }
    }
  }

  // So whatever threshold is asked for, one failed ping makes the handler give up the lock.
  method RunNew(threshold: nat, pings: seq<bool>) returns (c: Controller, gaveUp: bool)
    ensures gaveUp <==> exists i :: 0 <= i < |pings| && !pings[i]
  {
    c := new Controller(threshold);
    var sent := c.Run(pings);
    gaveUp := c.reported;
  }
}
