/**
 * The broker object (Go's `Orchestrator`): a fixed array of GPU slots updated
 * in place and a lease table keyed by user ID. Each method is one locked step
 * of the Go program and is proved to leave the state that the matching step
 * of module Pool describes.
 */
module Broker {
  import opened Wrappers
  import opened Errors
  import opened Pool

  class Orchestrator {
    const gpus: array<Gpu>
    var sessions: map<string, Session>
    const basePort: int
    const timeout: int

    /** The slot table and the lease table as a value. */
    ghost function State(): PoolState
      reads this, gpus
    {
      PoolState(gpus[..], sessions)
    }

    /** Leases and unavailable slots correspond one to one, and slot `i` keeps ID `i` and port `basePort + 10*i`. */
    ghost predicate Valid()
      reads this, gpus
    {
      Consistent(State()) && PortsFrom(gpus[..], basePort)
    }

    /** NewOrchestrator: `gpuCount` free slots with ports `basePort + 10*i`, and no leases. */
    constructor (gpuCount: nat, basePort: int, timeout: int)
      ensures Valid() && fresh(gpus)
      ensures gpus.Length == gpuCount && sessions == map[]
      ensures forall i :: 0 <= i < gpuCount ==> gpus[i] == Gpu(i, true, "", ZeroTime, basePort + i * PortStride)
      ensures State() == InitialPool(gpuCount, basePort)
      ensures this.basePort == basePort && this.timeout == timeout
    {
      var a := new Gpu[gpuCount];
      var i := 0;
      while i < gpuCount
        invariant 0 <= i <= gpuCount
        invariant forall j :: 0 <= j < i ==> a[j] == InitialSlot(j, basePort)
      {
        a[i] := InitialSlot(i, basePort);
        i := i + 1;
      }
      gpus := a;
      sessions := map[];
      this.basePort := basePort;
      this.timeout := timeout;
      assert a[..] == InitialPool(gpuCount, basePort).gpus;
    }

    /** The current slots, in index order. */
    method Status() returns (slots: seq<Gpu>)
      requires Valid()
      ensures slots == gpus[..]
      ensures |slots| == gpus.Length
      ensures forall i :: 0 <= i < |slots| ==> slots[i].id == i && slots[i].port == basePort + i * PortStride
      ensures forall i :: 0 <= i < |slots| ==> (slots[i].available ==> slots[i].userId == "")
      ensures forall i :: 0 <= i < |slots| ==> (!slots[i].available ==> slots[i].userId in sessions)
    {
      slots := gpus[..];
    }

    /**
     * Claim for `userId`, with `pin` the freshly generated pairing code and
     * `now` the clock reading: a user with a lease gets it back; otherwise the
     * lowest free slot is leased, or the pool is exhausted.
     */
    method Claim(userId: string, pin: string, now: int) returns (r: Result<Session, HttpError>)
      requires Valid()
      modifies this, gpus
      ensures Valid()
      ensures (State(), r) == ClaimSpec(old(State()), userId, pin, now)
    {
      ghost var st0 := State();
      if userId in sessions {
        return Ok(sessions[userId]);
      }
      var i := 0;
      while i < gpus.Length
        invariant 0 <= i <= gpus.Length
        invariant forall j :: 0 <= j < i ==> !gpus[j].available
        invariant gpus[..] == st0.gpus && sessions == st0.sessions
      {
        if gpus[i].available {
          FirstFreeIs(st0.gpus, i);
          ghost var was := gpus[i];
          gpus[i] := gpus[i].(available := false);
          gpus[i] := gpus[i].(userId := userId);
          gpus[i] := gpus[i].(sessionStart := now);
          var session := Session(userId, gpus[i].id, gpus[i].port, pin, now);
          sessions := sessions[userId := session];
          assert gpus[..] == st0.gpus[i := was.(available := false, userId := userId, sessionStart := now)];
          ClaimPreservesConsistent(st0, userId, pin, now);
          SameLayoutKeepsPorts(st0.gpus, gpus[..], basePort);
          return Ok(session);
        }
        i := i + 1;
      }
      return Err(ErrNoAvailableGpu);
    }

    /** Release the lease of `userId`, or report that there is none. */
    method Release(userId: string) returns (err: Option<HttpError>)
      requires Valid()
      modifies this, gpus
      ensures Valid()
      ensures (State(), err) == ReleaseSpec(old(State()), userId)
    {
      ghost var st0 := State();
      if userId !in sessions {
        return Some(ErrSessionNotFound);
      }
      var session := sessions[userId];
      assert Leased(State(), userId);
      ghost var was := gpus[session.gpuId];
      gpus[session.gpuId] := gpus[session.gpuId].(available := true);
      gpus[session.gpuId] := gpus[session.gpuId].(userId := "");
      gpus[session.gpuId] := gpus[session.gpuId].(sessionStart := ZeroTime);
      sessions := sessions - {userId};
      assert gpus[..] == st0.gpus[session.gpuId := Released(was)];
      ReleasePreservesConsistent(st0, userId);
      SameLayoutKeepsPorts(st0.gpus, gpus[..], basePort);
      return None;
    }

    /** The expiry sweep at clock reading `now`: end every lease older than the timeout. */
    method CleanupExpired(now: int)
      requires Valid()
      modifies this, gpus
      ensures Valid()
      ensures State() == CleanupSpec(old(State()), now, timeout)
    {
      ghost var st0 := State();
      ghost var m := sessions;
      ghost var done: set<string> := {};
      var pending := sessions.Keys;
      while pending != {}
        invariant pending <= m.Keys && done == m.Keys - pending
        invariant sessions == m - ExpiredUsers(m, done, now, timeout)
        invariant gpus[..] == FreedAt(st0.gpus, SlotsOf(m, ExpiredUsers(m, done, now, timeout)))
        decreases pending
      {
        var userId :| userId in pending;
        var session := sessions[userId];
        assert Leased(st0, userId);
        SweepStep(st0.gpus, m, done, userId, now, timeout);
        if now - session.startedAt > timeout {
          gpus[session.gpuId] := gpus[session.gpuId].(available := true, userId := "");
          sessions := sessions - {userId};
        }
        pending := pending - {userId};
        done := done + {userId};
      }
      assert done == m.Keys;
      CleanupPreservesConsistent(st0, now, timeout);
      SameLayoutKeepsPorts(st0.gpus, gpus[..], basePort);
    }
  }
}
