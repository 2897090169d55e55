/** When a silent device is declared offline. Times are real numbers of seconds on the monotonic clock. */
module DeviceTimeout {
  import opened Wire

  function Max(a: real, b: real): real { if a >= b then a else b }

  /** The timeout for a device with the given configured report interval in minutes, if it has a numeric one. */
  function EffectiveTimeout(minimum: real, intervalMinutes: Option<real>): real {
    if intervalMinutes.None? || !(0.0 < intervalMinutes.value <= 60.0) then minimum
    else
      var seconds := intervalMinutes.value * 60.0;
      Max(minimum, seconds + Max(30.0, seconds * 0.20))
  }

  /** The least value that covers the minimum and, for a usable interval, the interval plus 20 percent and plus 30
      seconds. */
  lemma EffectiveTimeoutIsLeast(minimum: real, intervalMinutes: Option<real>, candidate: real)
    ensures
      var usable := intervalMinutes.Some? && 0.0 < intervalMinutes.value <= 60.0;
      var covers := candidate >= minimum
        && (usable ==> candidate >= intervalMinutes.value * 72.0 && candidate >= intervalMinutes.value * 60.0 + 30.0);
      covers <==> candidate >= EffectiveTimeout(minimum, intervalMinutes)
  {}

  datatype Timer = Timer(id: nat, due: real)

  class Monitor {
    var timers: map<string, Timer>
    var lastSeen: map<string, real>
    var stopped: bool
    var created: nat
    /** Timers whose thread has not finished. */
    var running: set<nat>
    /** The time of the latest traffic of every device that ever sent any. */
    ghost var traffic: map<string, real>
    /** Devices whose last arming failed. */
    ghost var unarmed: set<string>
    /** The timeout that was in effect when the current timer was armed. */
    ghost var armedFor: map<string, real>
    /** Every timer ever created, with the device it was created for. */
    ghost var issued: map<nat, (string, Timer)>

    ghost predicate Valid()
      reads this
    {
      && (forall id :: id in issued ==> id < created && issued[id].1.id == id)
      && (stopped ==> timers == map[] && lastSeen == map[])
      && (forall d :: d in lastSeen ==> d in traffic && lastSeen[d] == traffic[d])
      && (forall d :: d in lastSeen ==> d in timers || d in unarmed)
      && (forall d :: d in timers ==>
          && timers[d].id in running && timers[d].id in issued && issued[timers[d].id] == (d, timers[d])
          && d in lastSeen && d in armedFor && timers[d].due <= lastSeen[d] + armedFor[d])
    }

    constructor ()
      ensures Valid() && lastSeen == map[] && timers == map[] && !stopped
    {
      timers, lastSeen, stopped, created, running := map[], map[], false, 0, {};
      traffic, unarmed, armedFor, issued := map[], {}, map[], map[];
    }

    /** Replace a device's timer; startsOk says whether a new timer can be started. */
    method Arm(device: string, now: real, delay: real, startsOk: bool, ghost timeout: real)
      requires !stopped && (device in lastSeen && now + delay <= lastSeen[device] + timeout)
      modifies this`timers, this`created, this`running, this`unarmed, this`armedFor, this`issued
      ensures created == old(created) + 1
      ensures issued == old(issued)[old(created) := (device, Timer(old(created), now + delay))]
      ensures startsOk ==>
        && timers == old(timers)[device := Timer(old(created), now + delay)] && running == old(running) + {old(created)}
        && unarmed == old(unarmed) - {device} && armedFor == old(armedFor)[device := timeout]
      ensures !startsOk ==>
        timers == old(timers) - {device} && running == old(running) && unarmed == old(unarmed) + {device}
        && armedFor == old(armedFor)
    {
      timers := timers - {device};
      var timer := Timer(created, now + delay);
      created, issued := created + 1, issued[created := (device, timer)];
      timers := timers[device := timer];
      if startsOk {
        running := running + {timer.id};
        unarmed, armedFor := unarmed - {device}, armedFor[device := timeout];
      } else {
        timers := timers - {device};
        unarmed := unarmed + {device};
      }
    }

    method Traffic(device: string, now: real, timeout: real, startsOk: bool)
      requires Valid()
      requires device in lastSeen ==> lastSeen[device] <= now
      modifies this
      ensures Valid() && stopped == old(stopped)
      ensures old(stopped) ==> lastSeen == old(lastSeen) && timers == old(timers) && traffic == old(traffic)
      ensures !old(stopped) ==> traffic == old(traffic)[device := now] && lastSeen == old(lastSeen)[device := now]
      ensures !old(stopped) ==>
        if device in old(timers) then timers == old(timers)
        else if startsOk then timers == old(timers)[device := Timer(old(created), now + timeout)]
        else timers == old(timers)
    {
      if stopped {
        return;
      }
      lastSeen, traffic := lastSeen[device := now], traffic[device := now];
      if device in timers && timers[device].id in running {
        return;
      }
      Arm(device, now, timeout, startsOk, timeout);
    }

    /** A timer's thread runs, at or after its due time and possibly long after it was replaced. */
    method Fire(device: string, timer: Timer, now: real, timeout: real, startsOk: bool) returns (offline: bool)
      requires Valid() && now >= timer.due
      requires timer.id in issued && issued[timer.id] == (device, timer)
      modifies this
      ensures Valid() && stopped == old(stopped) && traffic == old(traffic)
      ensures !(device in old(timers) && old(timers)[device] == timer) ==>
        !offline && timers == old(timers) && lastSeen == old(lastSeen)
      ensures device in old(timers) && old(timers)[device] == timer ==>
        && (offline <==> now - traffic[device] >= timeout)
        && (offline ==> timers == old(timers) - {device} && lastSeen == old(lastSeen) - {device})
        && (!offline && startsOk ==>
            timers == old(timers)[device := Timer(old(created), traffic[device] + timeout)]
            && lastSeen == old(lastSeen))
        && (!offline && !startsOk ==> timers == old(timers) - {device} && lastSeen == old(lastSeen))
    {
      offline := false;
      if device in timers && timers[device].id == timer.id {
        offline := CheckTimeout(device, now, timeout, startsOk);
      }
      running := running - {timer.id};
    }

    method CheckTimeout(device: string, now: real, timeout: real, startsOk: bool) returns (offline: bool)
      requires device in timers
      modifies this
      ensures stopped == old(stopped) && traffic == old(traffic)
      ensures offline <==> !stopped && device in old(lastSeen) && now - old(lastSeen)[device] >= timeout
      ensures lastSeen == if offline then old(lastSeen) - {device} else old(lastSeen)
      ensures stopped ==> timers == old(timers)
      ensures !stopped && (offline || device !in old(lastSeen)) ==> timers == old(timers) - {device}
      ensures stopped || offline || device !in old(lastSeen) ==>
        && running == old(running) && unarmed == old(unarmed) && armedFor == old(armedFor)
        && created == old(created) && issued == old(issued)
      ensures !stopped && !offline && device in old(lastSeen) ==>
        var timer := Timer(old(created), lastSeen[device] + timeout);
        && created == old(created) + 1 && issued == old(issued)[old(created) := (device, timer)]
        && if startsOk then
            && timers == old(timers)[device := timer] && running == old(running) + {old(created)}
            && unarmed == old(unarmed) - {device} && armedFor == old(armedFor)[device := timeout]
          else
            timers == old(timers) - {device} && running == old(running) && unarmed == old(unarmed) + {device}
            && armedFor == old(armedFor)
    {
      if stopped {
        return false;
      }
      if device !in lastSeen {
        timers := timers - {device};
        return false;
      }
      var remaining := timeout - (now - lastSeen[device]);
      if remaining > 0.0 {
        Arm(device, now, remaining, startsOk, timeout);
        return false;
      }
      timers, lastSeen := timers - {device}, lastSeen - {device};
      return true;
    }

    method Stop()
      requires Valid()
      modifies this`stopped, this`timers, this`lastSeen
      ensures Valid() && stopped && timers == map[] && lastSeen == map[]
    {
      stopped, timers, lastSeen := true, map[], map[];
    }

    method Start()
      requires Valid()
      modifies this`stopped
      ensures Valid() && !stopped
    {
      stopped := false;
    }

    /** A silent device is found out by at most two firings of its own timers, the second one due exactly at its
        timeout. */
    method DetectSilence(device: string, firstRun: real, secondRun: real, timeout: real) returns (offline: bool)
      requires Valid() && device in timers
      requires firstRun >= timers[device].due && secondRun >= traffic[device] + timeout
      modifies this
      ensures Valid() && offline && device !in lastSeen && device !in timers
    {
      offline := Fire(device, timers[device], firstRun, timeout, true);
      if !offline {
        offline := Fire(device, timers[device], secondRun, timeout, true);
      }
    }
  }
}
