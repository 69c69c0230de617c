/** ServiceInfoEmitter: the heartbeat announcer. Two flags, `pause` and `die`,
    are flipped by the dispatcher and by shutdown and read by the announcing
    loop; `Step` is one turn of that loop with the random draw as a parameter. */
module Emitter {
  import opened Wrappers
  import opened Messages

  /** The arguments of one `sendMyServiceInfo` call. */
  datatype Announcement = Announcement(serviceName: string, address: Address, port: int, timeoutMillis: int)

  /** One turn of the loop: it has ended, it waits while paused, or it
      announced (unless the own address could not be found) and sleeps. */
  datatype Turn = Stopped | WaitsWhilePaused | Announced(announcement: Option<Announcement>, sleepMillis: int)

  /** Half the jitter window: a fifth of the interval. */
  function HalfWindow(intervalMillis: int): int
  {
    intervalMillis / 5
  }

  /** The jittered sleep of ServiceInfoEmitter.java:83, `draw` being `random.nextInt(2 * w)`. */
  function JitteredSleep(intervalMillis: int, draw: int): (sleep: int)
    requires intervalMillis >= 0 && 0 <= draw < 2 * HalfWindow(intervalMillis)
    ensures intervalMillis - HalfWindow(intervalMillis) <= sleep <= intervalMillis + HalfWindow(intervalMillis) - 1
    ensures sleep > 0
  {
    intervalMillis - HalfWindow(intervalMillis) + draw
  }

  class ServiceInfoEmitter {
    var die: bool
    var pause: bool
    const serviceName: string
    const receivePort: int
    const timeoutMillis: int
    const intervalMillis: int

    constructor(serviceName: string, receivePort: int, timeoutMillis: int, intervalMillis: int)
      ensures !die && !pause
      ensures this.serviceName == serviceName && this.receivePort == receivePort
      ensures this.timeoutMillis == timeoutMillis && this.intervalMillis == intervalMillis
    {
      die := false;
      pause := false;
      this.serviceName := serviceName;
      this.receivePort := receivePort;
      this.timeoutMillis := timeoutMillis;
      this.intervalMillis := intervalMillis;
    }

    /** Stop announcing for good; a paused loop is released so that it can end. */
    method Die()
      modifies this
      ensures die && !pause
    {
      die := true;
      var _ := Unpause();
    }

    /** Pause announcing; returns whether it was already paused. */
    method Pause() returns (wasPaused: bool)
      modifies this`pause
      ensures wasPaused == old(pause) && pause
    {
      wasPaused := pause;
      pause := true;
    }

    /** Resume announcing; returns whether it was paused. */
    method Unpause() returns (wasPaused: bool)
      modifies this`pause
      ensures wasPaused == old(pause) && !pause
    {
      wasPaused := pause;
      pause := false;
    }

    /** One turn of `run()` (ServiceInfoEmitter.java:65-85) given the address
        `findMyInetAddress` found (None when it threw) and the random draw. */
    method Step(myAddress: Option<Address>, draw: int) returns (turn: Turn)
      requires intervalMillis >= 0 && 0 <= draw < 2 * HalfWindow(intervalMillis)
      ensures die ==> turn == Stopped
      ensures !die && pause ==> turn == WaitsWhilePaused
      ensures !die && !pause ==> turn.Announced?
      ensures turn.Announced? ==>
        && turn.sleepMillis == JitteredSleep(intervalMillis, draw)
        && (turn.announcement.Some? <==> myAddress.Some?)
        && (myAddress.Some? ==> turn.announcement.value == Announcement(serviceName, myAddress.value, receivePort, timeoutMillis))
    {
      if die {
        return Stopped;
      }
      if pause {
        return WaitsWhilePaused;
      }
      var announcement := None;
      if myAddress.Some? {
        announcement := Some(Announcement(serviceName, myAddress.value, receivePort, timeoutMillis));
      }
      var sleepMillis := intervalMillis - HalfWindow(intervalMillis) + draw;
      turn := Announced(announcement, sleepMillis);
    }
  }

  /** No announcement is made while paused or after `die`, and `die` ends a paused loop. */
  method PauseAndDie(e: ServiceInfoEmitter, address: Address, draw: int)
    returns (whilePaused: Turn, wasPaused: bool, unpaused: Turn, afterDie: Turn)
    requires !e.die && e.intervalMillis >= 0 && 0 <= draw < 2 * HalfWindow(e.intervalMillis)
    modifies e
    ensures whilePaused == WaitsWhilePaused && wasPaused
    ensures unpaused.Announced? && unpaused.announcement == Some(Announcement(e.serviceName, address, e.receivePort, e.timeoutMillis))
    ensures afterDie == Stopped && e.die && !e.pause
  {
    var was := e.Pause();
    whilePaused := e.Step(Some(address), draw);
    wasPaused := e.Unpause();
    unpaused := e.Step(Some(address), draw);
    was := e.Pause();
    e.Die();
    afterDie := e.Step(Some(address), draw);
  }
}
