/** A depot record: the entry the block repository keeps for one block,
    located either in the in-memory cache (a cell) or in the on-disk reserve
    (a unit), with an optional expiration timer. The timer, the cell, the
    unit and the repository are collaborators whose internals are not part of
    this model; each reports success or failure through a fixed fault flag. */
module Depot {
  import opened Elle
  import opened Proton

  datatype Location = LocationUnknown | LocationCache | LocationReserve

  /** The expiration delay in seconds, with the record's gross calendar: a
      minute is 60 seconds, an hour 60 minutes, a day 24 hours, a month 30
      days and a year 12 such months. */
  function ExpirationSeconds(t: Time): (s: nat)
    ensures s == ((((t.year * 12 + t.month) * 30 + t.day) * 24 + t.hour) * 60 + t.minute) * 60 + t.second
  {
    t.second + t.minute * 60 + t.hour * 3600 + t.day * 86400 + t.month * 2592000 + t.year * 31104000
  }

  /** The delay handed to the timer: the expiration held in a `Natural64`,
      times 1000, held in a `Natural64` again. */
  function DelayMilliseconds(t: Time): (ms: nat)
    ensures ms < Natural64Limit
    ensures ExpirationSeconds(t) * 1000 < Natural64Limit ==> ms == ExpirationSeconds(t) * 1000
  {
    Natural64(Natural64(ExpirationSeconds(t)) * 1000)
  }

  lemma MonthIsThirtyDays(t: Time)
    ensures ExpirationSeconds(t.(month := t.month + 1)) == ExpirationSeconds(t.(day := t.day + 30))
  {
  }

  lemma YearIsTwelveMonths(t: Time)
    ensures ExpirationSeconds(t.(year := t.year + 1)) == ExpirationSeconds(t.(month := t.month + 12))
  {
  }

  /** Within calendar ranges (and a year below 65536) neither `Natural64`
      conversion wraps: the timer gets exactly a thousand times the seconds. */
  lemma CalendarDelayDoesNotWrap(t: Time)
    requires t.second < 60 && t.minute < 60 && t.hour < 24 && t.day < 31 && t.month < 12 && t.year < 65536
    ensures ExpirationSeconds(t) < 65537 * 31104000
    ensures DelayMilliseconds(t) == ExpirationSeconds(t) * 1000
  {
  }

  /** The expiration timer of a record. */
  class Timer {
    var running: bool
    var delay: nat
    const stopFault: bool
    const startFault: bool

    constructor (stopFault: bool, startFault: bool)
      ensures !running && this.stopFault == stopFault && this.startFault == startFault
    {
      running := false;
      delay := 0;
      this.stopFault := stopFault;
      this.startFault := startFault;
    }

    method Stop() returns (ok: bool)
      modifies this
      ensures ok == !stopFault
      ensures delay == old(delay)
      ensures running == (if ok then false else old(running))
    {
      ok := !stopFault;
      if ok {
        running := false;
      }
    }

    method Start(ms: nat) returns (ok: bool)
      modifies this
      ensures ok == !startFault
      ensures ok ==> running && delay == ms
      ensures !ok ==> running == old(running) && delay == old(delay)
    {
      ok := !startFault;
      if ok {
        running := true;
        delay := ms;
      }
    }
  }

  /** A block held in the cache. */
  class Cell {
    var live: bool
    const fault: bool

    constructor (fault: bool)
      ensures live && this.fault == fault
    {
      live := true;
      this.fault := fault;
    }

    method Destroy() returns (ok: bool)
      modifies this
      ensures ok == !fault
      ensures live == (if ok then false else old(live))
    {
      ok := !fault;
      if ok {
        live := false;
      }
    }
  }

  /** A block held in the reserve. */
  class Unit {
    var live: bool
    const fault: bool

    constructor (fault: bool)
      ensures live && this.fault == fault
    {
      live := true;
      this.fault := fault;
    }

    method Destroy() returns (ok: bool)
      modifies this
      ensures ok == !fault
      ensures live == (if ok then false else old(live))
    {
      ok := !fault;
      if ok {
        live := false;
      }
    }
  }

  /** The block repository the records belong to. */
  class Repository {
    var entries: set<Address>
    const fault: bool

    constructor (fault: bool)
      ensures entries == {} && this.fault == fault
    {
      entries := {};
      this.fault := fault;
    }

    /** Removes the block at `address`. */
    method Discard(address: Address) returns (ok: bool)
      modifies this
      ensures ok == !fault
      ensures entries == if ok then old(entries) - {address} else old(entries)
    {
      ok := !fault;
      if ok {
        entries := entries - {address};
      }
    }
  }

  class Record {
    var address: Address
    var location: Location
    var timer: Timer?
    var cell: Cell?
    var unit: Unit?

    /** The data sits where the location says. */
    ghost predicate Valid()
      reads this
    {
      && (location == LocationCache ==> cell != null)
      && (location == LocationReserve ==> unit != null)
    }

    constructor ()
      ensures Valid()
      ensures location == LocationUnknown && timer == null
    {
      address := Null;
      location := LocationUnknown;
      timer := null;
      cell := null;
      unit := null;
    }

    /** Associates the record with the address of its block. */
    method Create(address: Address) returns (ok: bool)
      modifies this
      ensures ok
      ensures this.address == address
      ensures location == old(location) && timer == old(timer) && cell == old(cell) && unit == old(unit)
    {
      this.address := address;
      return true;
    }

    /** Restarts the expiration timer, if the record has one, with the delay
        `time` stands for. */
    method Monitor(time: Time) returns (ok: bool)
      modifies timer
      ensures timer == null ==> ok
      ensures timer != null && timer.stopFault ==>
                !ok && timer.running == old(timer.running) && timer.delay == old(timer.delay)
      ensures timer != null && !timer.stopFault && timer.startFault ==>
                !ok && !timer.running && timer.delay == old(timer.delay)
      ensures timer != null && !timer.stopFault && !timer.startFault ==>
                ok && timer.running && timer.delay == DelayMilliseconds(time)
    {
      if timer == null {
        return true;
      }
      var stopped := timer.Stop();
      if !stopped {
        return false;
      }
      var expiration := Natural64(ExpirationSeconds(time));
      var started := timer.Start(Natural64(expiration * 1000));
      if !started {
        return false;
      }
      return true;
    }

    /** Stops and releases the timer, then destroys and releases the data
        where the location says it is. */
    method Destroy() returns (ok: bool)
      requires Valid()
      modifies this, timer, cell, unit
      ensures old(timer) != null && old(timer).stopFault ==>
                !ok && timer == old(timer) && cell == old(cell) && unit == old(unit)
                && timer.running == old(timer.running) && timer.delay == old(timer.delay)
                && (cell != null ==> cell.live == old(cell.live)) && (unit != null ==> unit.live == old(unit.live))
      ensures old(timer) == null || !old(timer).stopFault ==>
                && timer == null
                && (old(timer) != null ==> !old(timer).running)
                && (old(location) == LocationUnknown ==>
                      && !ok
                      && cell == old(cell) && (cell != null ==> cell.live == old(cell.live))
                      && unit == old(unit) && (unit != null ==> unit.live == old(unit.live)))
                && (old(location) == LocationCache ==>
                      && ok == !old(cell).fault
                      && (ok ==> !old(cell).live && cell == null)
                      && (!ok ==> cell == old(cell) && cell.live == old(cell.live))
                      && unit == old(unit) && (unit != null ==> unit.live == old(unit.live)))
                && (old(location) == LocationReserve ==>
                      && ok == !old(unit).fault
                      && (ok ==> !old(unit).live && unit == null)
                      && (!ok ==> unit == old(unit) && unit.live == old(unit.live))
                      && cell == old(cell) && (cell != null ==> cell.live == old(cell.live)))
      ensures location == old(location) && address == old(address)
    {
      if timer != null {
        var stopped := timer.Stop();
        if !stopped {
          return false;
        }
        timer := null;
      }
      match location {
        case LocationCache =>
          var destroyed := cell.Destroy();
          if !destroyed {
            return false;
          }
          cell := null;
        case LocationReserve =>
          var destroyed := unit.Destroy();
          if !destroyed {
            return false;
          }
          unit := null;
        case LocationUnknown =>
          return false;
      }
      return true;
    }

    /** The timer callback: removes the record's block from the repository. */
    method Discard(repository: Repository) returns (ok: bool)
      modifies repository
      ensures ok == !repository.fault
      ensures repository.entries == if ok then old(repository.entries) - {address} else old(repository.entries)
    {
      ok := repository.Discard(address);
    }
  }
}
