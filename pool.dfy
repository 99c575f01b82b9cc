/**
 * The GPU lease broker as a state machine on values: the slot table and the
 * lease table, and what one locked call of Claim, Release or CleanupExpired
 * does to them. The class in module Broker runs these steps in place and is
 * proved to agree with them; the lemmas here state what the steps promise.
 *
 * Timestamps are integers (the clock is read by the caller and passed in);
 * ZeroTime stands for Go's zero `time.Time{}`.
 */
module Pool {
  import opened Wrappers
  import opened Errors

  const ZeroTime: int := 0

  /** Each slot reserves a block of this many ports above the base port. */
  const PortStride: int := 10

  /** One GPU slot (Go's `GPU`). An empty `userId` means "no holder". */
  datatype Gpu = Gpu(id: int, available: bool, userId: string, sessionStart: int, port: int)

  /** One lease (Go's `Session`), returned to the caller of a claim. */
  datatype Session = Session(userId: string, gpuId: int, port: int, pin: string, startedAt: int)

  /** The slot table and the lease table keyed by user ID. */
  datatype PoolState = PoolState(gpus: seq<Gpu>, sessions: map<string, Session>)

  // ---------------------------------------------------------------------------
  // Construction

  /** The slot that construction puts at index `i`. */
  function InitialSlot(i: int, basePort: int): Gpu {
    Gpu(i, true, "", ZeroTime, basePort + i * PortStride)
  }

  /** Slot `i` carries ID `i` and the port `basePort + 10*i`. */
  ghost predicate PortsFrom(gs: seq<Gpu>, basePort: int) {
    forall i :: 0 <= i < |gs| ==> gs[i].id == i && gs[i].port == basePort + i * PortStride
  }

  /** Two slot tables of the same size whose IDs and ports agree. */
  ghost predicate SameLayout(gs: seq<Gpu>, gs': seq<Gpu>) {
    |gs| == |gs'| &&
    forall i :: 0 <= i < |gs| ==> gs'[i].id == gs[i].id && gs'[i].port == gs[i].port
  }

  lemma SameLayoutKeepsPorts(gs: seq<Gpu>, gs': seq<Gpu>, basePort: int)
    requires PortsFrom(gs, basePort) && SameLayout(gs, gs')
    ensures PortsFrom(gs', basePort)
  {
  }

  // ---------------------------------------------------------------------------
  // The invariant

  /** The lease of `u` points at a slot that is unavailable and held by `u`. */
  ghost predicate Leased(st: PoolState, u: string)
    requires u in st.sessions
  {
    var s := st.sessions[u];
    && s.userId == u
    && 0 <= s.gpuId < |st.gpus|
    && !st.gpus[s.gpuId].available
    && st.gpus[s.gpuId].userId == u
    && st.gpus[s.gpuId].sessionStart == s.startedAt
    && s.port == st.gpus[s.gpuId].port
  }

  /**
   * Unavailable slots and leases correspond one to one: every lease points at
   * an unavailable slot held by its user, every unavailable slot is pointed at
   * by the lease of its holder, and a free slot has no holder.
   */
  ghost predicate Consistent(st: PoolState) {
    && (forall i :: 0 <= i < |st.gpus| ==> st.gpus[i].id == i)
    && (forall i :: 0 <= i < |st.gpus| && st.gpus[i].available ==> st.gpus[i].userId == "")
    && (forall i :: 0 <= i < |st.gpus| && !st.gpus[i].available ==>
          st.gpus[i].userId in st.sessions && st.sessions[st.gpus[i].userId].gpuId == i)
    && (forall u :: u in st.sessions ==> Leased(st, u))
  }

  /** Indices of the slots that are leased out. */
  function UnavailableIds(gs: seq<Gpu>): set<int> {
    set i | 0 <= i < |gs| && !gs[i].available
  }

  /** The slots the leases of the users in `us` point at. */
  function SlotsOf(m: map<string, Session>, us: set<string>): set<int> {
    set u | u in us && u in m :: m[u].gpuId
  }

  /** The indices `0 .. n-1`. */
  function Indices(n: nat): (r: set<int>)
    ensures forall i :: i in r <==> 0 <= i < n
    ensures |r| == n
  {
    if n == 0 then {} else Indices(n - 1) + {n - 1}
  }

  /** A subset is no larger than its superset, and as large only when it is all of it. */
  lemma {:induction false} SubsetCard<T>(s: set<T>, t: set<T>)
    requires s <= t
    ensures |s| <= |t|
    ensures |s| == |t| ==> s == t
    decreases t
  {
    if t != {} {
      var x :| x in t;
      SubsetCard(s - {x}, t - {x});
      if x in s {
        assert s == (s - {x}) + {x};
      } else {
        assert s - {x} == s;
      }
    }
  }

  /** Leases pointing at pairwise different slots point at as many slots as there are leases. */
  lemma {:induction false} InjectiveSlotsCard(m: map<string, Session>, us: set<string>)
    requires us <= m.Keys
    requires forall u, v :: u in us && v in us && u != v ==> m[u].gpuId != m[v].gpuId
    ensures |SlotsOf(m, us)| == |us|
  {
    if us == {} {
      assert SlotsOf(m, us) == {};
    } else {
      var u :| u in us;
      InjectiveSlotsCard(m, us - {u});
      assert SlotsOf(m, us) == SlotsOf(m, us - {u}) + {m[u].gpuId};
    }
  }

  /** No slot is assigned to two users. */
  lemma NoDoubleAssignment(st: PoolState, u: string, v: string)
    requires Consistent(st)
    requires u in st.sessions && v in st.sessions && u != v
    ensures st.sessions[u].gpuId != st.sessions[v].gpuId
  {
    assert Leased(st, u) && Leased(st, v);
  }

  /** The number of unavailable slots equals the number of leases, and is at most the slot count. */
  lemma SessionCount(st: PoolState)
    requires Consistent(st)
    ensures |st.sessions| == |UnavailableIds(st.gpus)|
    ensures |st.sessions| <= |st.gpus|
  {
    var m := st.sessions;
    forall u, v | u in m && v in m && u != v
      ensures m[u].gpuId != m[v].gpuId
    {
      NoDoubleAssignment(st, u, v);
    }
    InjectiveSlotsCard(m, m.Keys);
    forall i | i in UnavailableIds(st.gpus)
      ensures i in SlotsOf(m, m.Keys)
    {
      assert st.gpus[i].userId in m;
    }
    forall i | i in SlotsOf(m, m.Keys)
      ensures i in UnavailableIds(st.gpus)
    {
      var u :| u in m && m[u].gpuId == i;
      assert Leased(st, u);
    }
    assert SlotsOf(m, m.Keys) == UnavailableIds(st.gpus);
    assert |m.Keys| == |m|;
    SubsetCard(UnavailableIds(st.gpus), Indices(|st.gpus|));
  }

  // ---------------------------------------------------------------------------
  // Claim

  /** The lowest index of an available slot, if there is one. */
  function FirstFree(gs: seq<Gpu>): (r: Option<nat>)
    ensures r.Some? ==> r.value < |gs| && gs[r.value].available
    ensures r.Some? ==> forall j :: 0 <= j < r.value ==> !gs[j].available
    ensures r.None? ==> forall j :: 0 <= j < |gs| ==> !gs[j].available
  {
    if gs == [] then None
    else if gs[0].available then Some(0)
    else match FirstFree(gs[1..])
      case None => None
      case Some(k) => Some(k + 1)
  }

  /** The first available slot after a run of unavailable ones is the one FirstFree finds. */
  lemma FirstFreeIs(gs: seq<Gpu>, k: nat)
    requires k < |gs| && gs[k].available
    requires forall j :: 0 <= j < k ==> !gs[j].available
    ensures FirstFree(gs) == Some(k)
  {
    var r := FirstFree(gs);
    assert r.Some?;
    assert !(r.value < k) && !(k < r.value);
  }

  /** The pool is full exactly when there are as many leases as slots. */
  lemma PoolFullIff(st: PoolState)
    requires Consistent(st)
    ensures FirstFree(st.gpus).None? <==> |st.sessions| == |st.gpus|
  {
    SessionCount(st);
    var n := |st.gpus|;
    SubsetCard(UnavailableIds(st.gpus), Indices(n));
    if FirstFree(st.gpus).None? {
      assert UnavailableIds(st.gpus) == Indices(n);
    }
    if |st.sessions| == n {
      assert UnavailableIds(st.gpus) == Indices(n);
      forall j | 0 <= j < n
        ensures !st.gpus[j].available
      {
        assert j in UnavailableIds(st.gpus);
      }
    }
  }

  /**
   * One Claim by `userId`: a user that holds a lease gets it back unchanged;
   * otherwise the lowest free slot is leased to the user with the given PIN and
   * start time, or the pool is full.
   */
  function ClaimSpec(st: PoolState, userId: string, pin: string, now: int): (PoolState, Result<Session, HttpError>) {
    if userId in st.sessions then (st, Ok(st.sessions[userId]))
    else match FirstFree(st.gpus)
      case None => (st, Err(ErrNoAvailableGpu))
      case Some(i) =>
        var g := st.gpus[i];
        var s := Session(userId, g.id, g.port, pin, now);
        (PoolState(st.gpus[i := g.(available := false, userId := userId, sessionStart := now)],
                   st.sessions[userId := s]),
         Ok(s))
  }

  /** A user that already holds a lease gets that same lease back, and nothing changes. */
  lemma ClaimIdempotent(st: PoolState, userId: string, pin: string, now: int, pin': string, now': int)
    ensures userId in st.sessions ==> ClaimSpec(st, userId, pin, now) == (st, Ok(st.sessions[userId]))
    ensures var (st1, r1) := ClaimSpec(st, userId, pin, now);
            r1.Ok? ==> ClaimSpec(st1, userId, pin', now') == (st1, r1)
  {
  }

  /**
   * A claim by a user without a lease takes the lowest available slot, marks it
   * unavailable for that user, records a lease that points at it with its port,
   * and changes no other slot and no other lease. It fails only when no slot is
   * available, and then changes nothing.
   */
  lemma ClaimPicksLowestFree(st: PoolState, userId: string, pin: string, now: int)
    requires Consistent(st)
    requires userId !in st.sessions
    ensures var (st1, r) := ClaimSpec(st, userId, pin, now);
      match r
      case Ok(s) =>
        && 0 <= s.gpuId < |st.gpus|
        && st.gpus[s.gpuId].available
        && (forall j :: 0 <= j < s.gpuId ==> !st.gpus[j].available)
        && s == Session(userId, s.gpuId, st.gpus[s.gpuId].port, pin, now)
        && |st1.gpus| == |st.gpus|
        && st1.gpus[s.gpuId] == st.gpus[s.gpuId].(available := false, userId := userId, sessionStart := now)
        && (forall j :: 0 <= j < |st.gpus| && j != s.gpuId ==> st1.gpus[j] == st.gpus[j])
        && st1.sessions == st.sessions[userId := s]
      case Err(e) =>
        && e == ErrNoAvailableGpu
        && st1 == st
        && (forall j :: 0 <= j < |st.gpus| ==> !st.gpus[j].available)
  {
    match FirstFree(st.gpus)
    case None =>
    case Some(i) =>
      assert st.gpus[i].id == i;
  }

  /** A new user's claim fails exactly when there are as many leases as slots. */
  lemma ClaimFailsIffFull(st: PoolState, userId: string, pin: string, now: int)
    requires Consistent(st)
    requires userId !in st.sessions
    ensures ClaimSpec(st, userId, pin, now).1.Err? <==> |st.sessions| == |st.gpus|
    ensures ClaimSpec(st, userId, pin, now).1.Ok? ==>
              |ClaimSpec(st, userId, pin, now).0.sessions| == |st.sessions| + 1
  {
    PoolFullIff(st);
  }

  lemma ClaimPreservesConsistent(st: PoolState, userId: string, pin: string, now: int)
    requires Consistent(st)
    ensures Consistent(ClaimSpec(st, userId, pin, now).0)
    ensures SameLayout(st.gpus, ClaimSpec(st, userId, pin, now).0.gpus)
  {
    if userId !in st.sessions && FirstFree(st.gpus).Some? {
      var i := FirstFree(st.gpus).value;
      var st1 := ClaimSpec(st, userId, pin, now).0;
      assert st.gpus[i].id == i;
      forall j | 0 <= j < |st1.gpus| && !st1.gpus[j].available
        ensures st1.gpus[j].userId in st1.sessions && st1.sessions[st1.gpus[j].userId].gpuId == j
      {
        if j != i {
          assert st.gpus[j].userId in st.sessions;
        }
      }
      forall u | u in st1.sessions
        ensures Leased(st1, u)
      {
        if u != userId {
          assert Leased(st, u);
          assert st.sessions[u].gpuId != i;
        }
      }
    }
  }

  // ---------------------------------------------------------------------------
  // Release

  /** What Release does to the slot of the lease it ends. */
  function Released(g: Gpu): Gpu {
    g.(available := true, userId := "", sessionStart := ZeroTime)
  }

  /**
   * One Release by `userId`: without a lease it fails and changes nothing;
   * otherwise the lease's slot is restored and the lease removed.
   */
  function ReleaseSpec(st: PoolState, userId: string): (PoolState, Option<HttpError>)
    requires userId in st.sessions ==> 0 <= st.sessions[userId].gpuId < |st.gpus|
  {
    if userId !in st.sessions then (st, Some(ErrSessionNotFound))
    else
      var g := st.sessions[userId].gpuId;
      (PoolState(st.gpus[g := Released(st.gpus[g])], st.sessions - {userId}), None)
  }

  /**
   * Release succeeds exactly when the user holds a lease. On success the
   * lease's slot becomes available with no holder and no start time, only
   * that lease is removed, no other slot changes, and there is one lease and
   * one unavailable slot fewer. On failure nothing changes.
   */
  lemma ReleaseOutcome(st: PoolState, userId: string)
    requires Consistent(st)
    ensures var (st1, err) := ReleaseSpec(st, userId);
      && (err.None? <==> userId in st.sessions)
      && (err.Some? ==> err.value == ErrSessionNotFound && st1 == st)
      && (err.None? ==>
            var g := st.sessions[userId].gpuId;
            && |st1.gpus| == |st.gpus|
            && st1.gpus[g] == st.gpus[g].(available := true, userId := "", sessionStart := ZeroTime)
            && (forall j :: 0 <= j < |st.gpus| && j != g ==> st1.gpus[j] == st.gpus[j])
            && st1.sessions.Keys == st.sessions.Keys - {userId}
            && (forall u :: u in st1.sessions ==> st1.sessions[u] == st.sessions[u])
            && |st1.sessions| == |st.sessions| - 1
            && |UnavailableIds(st1.gpus)| == |UnavailableIds(st.gpus)| - 1)
  {
    if userId in st.sessions {
      assert Leased(st, userId);
      ReleasePreservesConsistent(st, userId);
      SessionCount(st);
      SessionCount(ReleaseSpec(st, userId).0);
    }
  }

  lemma ReleasePreservesConsistent(st: PoolState, userId: string)
    requires Consistent(st)
    ensures userId in st.sessions ==> 0 <= st.sessions[userId].gpuId < |st.gpus|
    ensures Consistent(ReleaseSpec(st, userId).0)
    ensures SameLayout(st.gpus, ReleaseSpec(st, userId).0.gpus)
  {
    if userId in st.sessions {
      assert Leased(st, userId);
      var g := st.sessions[userId].gpuId;
      var st1 := ReleaseSpec(st, userId).0;
      forall j | 0 <= j < |st1.gpus| && !st1.gpus[j].available
        ensures st1.gpus[j].userId in st1.sessions && st1.sessions[st1.gpus[j].userId].gpuId == j
      {
        assert j != g;
        var v := st.gpus[j].userId;
        assert v in st.sessions && st.sessions[v].gpuId == j;
        assert v != userId;
      }
      forall u | u in st1.sessions
        ensures Leased(st1, u)
      {
        assert Leased(st, u);
        NoDoubleAssignment(st, u, userId);
      }
    }
  }

  /**
   * Release undoes a successful claim by a user who held no lease: the leases
   * are exactly as before the claim and so are the slots, except that the
   * freed slot's start time is reset to the zero time.
   */
  lemma ReleaseUndoesClaim(st: PoolState, userId: string, pin: string, now: int)
    requires Consistent(st)
    requires userId !in st.sessions
    requires ClaimSpec(st, userId, pin, now).1.Ok?
    ensures var (st1, r) := ClaimSpec(st, userId, pin, now);
      var g := r.value.gpuId;
      && 0 <= g < |st.gpus|
      && ReleaseSpec(st1, userId) ==
           (PoolState(st.gpus[g := st.gpus[g].(sessionStart := ZeroTime)], st.sessions), None)
  {
    var i := FirstFree(st.gpus).value;
    assert st.gpus[i].id == i && st.gpus[i].userId == "";
    var st1 := ClaimSpec(st, userId, pin, now).0;
    assert Released(st1.gpus[i]) == st.gpus[i].(sessionStart := ZeroTime);
    assert st1.gpus[i := Released(st1.gpus[i])] == st.gpus[i := st.gpus[i].(sessionStart := ZeroTime)];
    assert st1.sessions - {userId} == st.sessions;
  }

  /**
   * After a release, a claim by a user without a lease succeeds and takes a
   * slot no higher than the freed one; from a full pool it takes exactly the
   * freed slot.
   */
  lemma ReleaseThenClaimReuses(st: PoolState, userId: string, other: string, pin: string, now: int)
    requires Consistent(st)
    requires userId in st.sessions && other != userId && other !in st.sessions
    ensures var g := st.sessions[userId].gpuId;
      var st1 := ReleaseSpec(st, userId).0;
      var r := ClaimSpec(st1, other, pin, now).1;
      && r.Ok? && r.value.gpuId <= g
      && (|st.sessions| == |st.gpus| ==> r.value.gpuId == g)
  {
    assert Leased(st, userId);
    var g := st.sessions[userId].gpuId;
    ReleasePreservesConsistent(st, userId);
    var st1 := ReleaseSpec(st, userId).0;
    ClaimPicksLowestFree(st1, other, pin, now);
    assert st1.gpus[g].available;
    if |st.sessions| == |st.gpus| {
      PoolFullIff(st);
    }
  }

  // ---------------------------------------------------------------------------
  // Expiry sweep

  /** A lease is expired once more than `timeout` has passed since it started. */
  predicate Expired(s: Session, now: int, timeout: int) {
    now - s.startedAt > timeout
  }

  /** The users among `us` whose leases in `m` are expired. */
  function ExpiredUsers(m: map<string, Session>, us: set<string>, now: int, timeout: int): set<string> {
    set u | u in us && u in m && Expired(m[u], now, timeout)
  }

  /** What the sweep does to the slot of an expired lease; unlike Released it keeps the start time. */
  function Reclaimed(g: Gpu): Gpu {
    g.(available := true, userId := "")
  }

  /** The slot table with every slot whose index is in `ids` reclaimed. */
  function FreedAt(gs: seq<Gpu>, ids: set<int>): (r: seq<Gpu>)
    ensures |r| == |gs|
  {
    seq(|gs|, i requires 0 <= i < |gs| => if i in ids then Reclaimed(gs[i]) else gs[i])
  }

  /** Reclaiming one more slot is one more update of the table. */
  lemma FreedAtAdd(gs: seq<Gpu>, ids: set<int>, g: int)
    requires 0 <= g < |gs|
    ensures FreedAt(gs, ids + {g}) == FreedAt(gs, ids)[g := Reclaimed(FreedAt(gs, ids)[g])]
  {
  }

  /**
   * One round of the sweep's loop over the lease table: visiting user `u`
   * after the users in `done` either reclaims `u`'s slot and drops `u`'s lease
   * (when it is expired) or leaves the sets of expired users unchanged.
   */
  lemma SweepStep(gs: seq<Gpu>, m: map<string, Session>, done: set<string>, u: string, now: int, timeout: int)
    requires u in m && u !in done && 0 <= m[u].gpuId < |gs|
    ensures var e := ExpiredUsers(m, done, now, timeout);
      var e' := ExpiredUsers(m, done + {u}, now, timeout);
      var g := m[u].gpuId;
      && (Expired(m[u], now, timeout) ==>
            && m - e' == (m - e) - {u}
            && FreedAt(gs, SlotsOf(m, e')) == FreedAt(gs, SlotsOf(m, e))[g := Reclaimed(FreedAt(gs, SlotsOf(m, e))[g])])
      && (!Expired(m[u], now, timeout) ==> e' == e)
  {
    var e := ExpiredUsers(m, done, now, timeout);
    var e' := ExpiredUsers(m, done + {u}, now, timeout);
    if Expired(m[u], now, timeout) {
      assert e' == e + {u};
      assert SlotsOf(m, e') == SlotsOf(m, e) + {m[u].gpuId};
      FreedAtAdd(gs, SlotsOf(m, e), m[u].gpuId);
    } else {
      assert e' == e;
    }
  }

  /** One CleanupExpired at time `now`: every expired lease is removed and its slot reclaimed. */
  function CleanupSpec(st: PoolState, now: int, timeout: int): PoolState {
    var gone := ExpiredUsers(st.sessions, st.sessions.Keys, now, timeout);
    PoolState(FreedAt(st.gpus, SlotsOf(st.sessions, gone)), st.sessions - gone)
  }

  /**
   * The sweep removes exactly the expired leases and keeps the others as they
   * are; the slot of an expired lease becomes available with no holder but
   * keeps its start time; every other slot, including the slots of the leases
   * that remain, is untouched.
   */
  lemma CleanupExact(st: PoolState, now: int, timeout: int)
    requires Consistent(st)
    ensures var st1 := CleanupSpec(st, now, timeout);
      && (forall u :: u in st.sessions ==>
            (u in st1.sessions <==> !Expired(st.sessions[u], now, timeout)))
      && (forall u :: u in st1.sessions ==> u in st.sessions && st1.sessions[u] == st.sessions[u])
      && |st1.gpus| == |st.gpus|
      && (forall u :: u in st.sessions && Expired(st.sessions[u], now, timeout) ==>
            var g := st.sessions[u].gpuId;
            0 <= g < |st.gpus| && st1.gpus[g] == st.gpus[g].(available := true, userId := ""))
      && (forall u :: u in st1.sessions ==>
            var g := st.sessions[u].gpuId;
            0 <= g < |st.gpus| && st1.gpus[g] == st.gpus[g])
      && (forall j :: 0 <= j < |st.gpus| && st.gpus[j].available ==> st1.gpus[j] == st.gpus[j])
  {
    var gone := ExpiredUsers(st.sessions, st.sessions.Keys, now, timeout);
    var st1 := CleanupSpec(st, now, timeout);
    forall u | u in st1.sessions
      ensures var g := st.sessions[u].gpuId; 0 <= g < |st.gpus| && st1.gpus[g] == st.gpus[g]
    {
      assert Leased(st, u);
      var g := st.sessions[u].gpuId;
      assert g !in SlotsOf(st.sessions, gone) by {
        forall v | v in gone && v in st.sessions
          ensures st.sessions[v].gpuId != g
        {
          NoDoubleAssignment(st, u, v);
        }
      }
    }
    forall u | u in st.sessions && Expired(st.sessions[u], now, timeout)
      ensures var g := st.sessions[u].gpuId;
        0 <= g < |st.gpus| && st1.gpus[g] == st.gpus[g].(available := true, userId := "")
    {
      assert Leased(st, u);
      assert u in gone;
    }
    forall j | 0 <= j < |st.gpus| && st.gpus[j].available
      ensures st1.gpus[j] == st.gpus[j]
    {
      assert j !in SlotsOf(st.sessions, gone) by {
        forall v | v in gone && v in st.sessions
          ensures st.sessions[v].gpuId != j
        {
          assert Leased(st, v);
        }
      }
    }
  }

  lemma CleanupPreservesConsistent(st: PoolState, now: int, timeout: int)
    requires Consistent(st)
    ensures Consistent(CleanupSpec(st, now, timeout))
    ensures SameLayout(st.gpus, CleanupSpec(st, now, timeout).gpus)
  {
    var gone := ExpiredUsers(st.sessions, st.sessions.Keys, now, timeout);
    var freed := SlotsOf(st.sessions, gone);
    var st1 := CleanupSpec(st, now, timeout);
    CleanupExact(st, now, timeout);
    forall j | 0 <= j < |st1.gpus| && !st1.gpus[j].available
      ensures st1.gpus[j].userId in st1.sessions && st1.sessions[st1.gpus[j].userId].gpuId == j
    {
      assert j !in freed;
      var v := st.gpus[j].userId;
      assert v in st.sessions && st.sessions[v].gpuId == j;
      assert v !in gone;
    }
    forall u | u in st1.sessions
      ensures Leased(st1, u)
    {
      assert Leased(st, u);
    }
  }

  /** A second sweep at the same time finds nothing more to do. */
  lemma CleanupIdempotent(st: PoolState, now: int, timeout: int)
    ensures CleanupSpec(CleanupSpec(st, now, timeout), now, timeout) == CleanupSpec(st, now, timeout)
  {
    var st1 := CleanupSpec(st, now, timeout);
    assert ExpiredUsers(st1.sessions, st1.sessions.Keys, now, timeout) == {};
    assert SlotsOf(st1.sessions, {}) == {};
    assert FreedAt(st1.gpus, {}) == st1.gpus;
    assert st1.sessions - {} == st1.sessions;
  }

  /**
   * After a sweep that found an expired lease, a claim by a user without a
   * lease succeeds and takes a slot no higher than that lease's slot.
   */
  lemma CleanupFreesForClaim(st: PoolState, now: int, timeout: int, expired: string, other: string, pin: string, now': int)
    requires Consistent(st)
    requires expired in st.sessions && Expired(st.sessions[expired], now, timeout)
    requires other !in st.sessions || Expired(st.sessions[other], now, timeout)
    ensures var st1 := CleanupSpec(st, now, timeout);
      var r := ClaimSpec(st1, other, pin, now').1;
      r.Ok? && r.value.gpuId <= st.sessions[expired].gpuId
  {
    var st1 := CleanupSpec(st, now, timeout);
    CleanupExact(st, now, timeout);
    CleanupPreservesConsistent(st, now, timeout);
    ClaimPicksLowestFree(st1, other, pin, now');
  }

  // ---------------------------------------------------------------------------
  // Many claims

  /** One call `Claim(userId, pin, now)`, with its own pairing code and clock reading. */
  datatype ClaimCall = ClaimCall(userId: string, pin: string, now: int)

  /** The user IDs of `calls`, in order. */
  function UsersOf(calls: seq<ClaimCall>): (us: seq<string>)
    ensures |us| == |calls| && forall k :: 0 <= k < |calls| ==> us[k] == calls[k].userId
  {
    seq(|calls|, k requires 0 <= k < |calls| => calls[k].userId)
  }

  /** The state after the claims in `calls` run one after another, in order. */
  function ClaimAll(st: PoolState, calls: seq<ClaimCall>): PoolState
    decreases |calls|
  {
    if calls == [] then st
    else
      var c := calls[|calls| - 1];
      ClaimSpec(ClaimAll(st, calls[..|calls| - 1]), c.userId, c.pin, c.now).0
  }

  /** The state NewOrchestrator builds: `n` free slots and no leases. */
  function InitialPool(n: nat, basePort: int): (st: PoolState)
    ensures |st.gpus| == n && st.sessions == map[]
    ensures Consistent(st) && PortsFrom(st.gpus, basePort)
    ensures forall i :: 0 <= i < n ==> st.gpus[i].available && st.gpus[i].userId == ""
  {
    PoolState(seq(n, i => InitialSlot(i, basePort)), map[])
  }

  /**
   * One claim by a new user into a pool whose slots below `k` are leased and
   * whose slots from `k` on are free takes slot `k`.
   */
  lemma FillStep(st0: PoolState, basePort: int, k: nat, u: string, pin: string, now: int)
    requires Consistent(st0) && PortsFrom(st0.gpus, basePort)
    requires k < |st0.gpus| && u !in st0.sessions
    requires forall j :: 0 <= j < k ==> !st0.gpus[j].available
    requires forall j :: k <= j < |st0.gpus| ==> st0.gpus[j].available
    ensures var st := ClaimSpec(st0, u, pin, now).0;
      && Consistent(st) && PortsFrom(st.gpus, basePort)
      && st.sessions == st0.sessions[u := Session(u, k, basePort + k * PortStride, pin, now)]
      && (forall j :: 0 <= j <= k ==> !st.gpus[j].available)
      && (forall j :: k < j < |st.gpus| ==> st.gpus[j].available)
  {
    FirstFreeIs(st0.gpus, k);
    ClaimPreservesConsistent(st0, u, pin, now);
  }

  /**
   * The state of a pool of `n` slots after the claims in `calls`, by distinct
   * users, ran one after another on a fresh pool: the user of call `k` holds
   * slot `k` with its port and with that call's PIN and start time, the slots
   * nobody claimed yet are available, and nobody else holds a lease.
   */
  ghost predicate FilledInOrder(st: PoolState, calls: seq<ClaimCall>, n: nat, basePort: int) {
    && Consistent(st) && PortsFrom(st.gpus, basePort) && |st.gpus| == n && |calls| <= n
    && (forall v :: v in st.sessions <==> v in UsersOf(calls))
    && (forall k :: 0 <= k < |calls| ==>
          st.sessions[calls[k].userId]
          == Session(calls[k].userId, k, basePort + k * PortStride, calls[k].pin, calls[k].now))
    && (forall j :: 0 <= j < |calls| ==> !st.gpus[j].available)
    && (forall j :: |calls| <= j < n ==> st.gpus[j].available)
  }

  /** The user of the last call holds no lease after the calls before it. */
  lemma LastUserIsNew(calls: seq<ClaimCall>)
    requires 0 < |calls|
    requires forall a :: 0 <= a < |calls| - 1 ==> calls[a].userId != calls[|calls| - 1].userId
    ensures calls[|calls| - 1].userId !in UsersOf(calls[..|calls| - 1])
  {
    var prefix := calls[..|calls| - 1];
    forall j | 0 <= j < |prefix|
      ensures UsersOf(prefix)[j] != calls[|calls| - 1].userId
    {
      assert prefix[j] == calls[j];
    }
  }

  /** The last of `calls` claims into the pool that the calls before it filled. */
  lemma FilledInOrderStep(st0: PoolState, calls: seq<ClaimCall>, n: nat, basePort: int)
    requires 0 < |calls| <= n
    requires FilledInOrder(st0, calls[..|calls| - 1], n, basePort)
    requires forall a :: 0 <= a < |calls| - 1 ==> calls[a].userId != calls[|calls| - 1].userId
    ensures var c := calls[|calls| - 1];
      FilledInOrder(ClaimSpec(st0, c.userId, c.pin, c.now).0, calls, n, basePort)
  {
    var k := |calls| - 1;
    var prefix, c := calls[..k], calls[k];
    LastUserIsNew(calls);
    FillStep(st0, basePort, k, c.userId, c.pin, c.now);
    var st := ClaimSpec(st0, c.userId, c.pin, c.now).0;
    assert UsersOf(calls) == UsersOf(prefix) + [c.userId];
    forall v
      ensures v in st.sessions <==> v in UsersOf(calls)
    {
      assert v in UsersOf(calls) <==> v in UsersOf(prefix) || v == c.userId;
    }
    forall j | 0 <= j < |calls|
      ensures st.sessions[calls[j].userId]
              == Session(calls[j].userId, j, basePort + j * PortStride, calls[j].pin, calls[j].now)
    {
      if j < k {
        assert calls[j] == prefix[j];
      }
    }
  }

  /**
   * Starting from a fresh pool of `n` slots, claims by distinct users, one
   * after another, get slots 0, 1, 2, ... in order with the matching ports and
   * each with its own PIN and start time; the slots nobody claimed yet stay
   * available.
   */
  lemma {:induction false} FillInOrder(n: nat, basePort: int, calls: seq<ClaimCall>)
    requires |calls| <= n
    requires forall a, b :: 0 <= a < b < |calls| ==> calls[a].userId != calls[b].userId
    ensures FilledInOrder(ClaimAll(InitialPool(n, basePort), calls), calls, n, basePort)
  {
    if calls != [] {
      var prefix := calls[..|calls| - 1];
      FillInOrder(n, basePort, prefix);
      FilledInOrderStep(ClaimAll(InitialPool(n, basePort), prefix), calls, n, basePort);
    }
  }

  /**
   * With `n` slots, `n` claims by distinct users all get a lease (call `k`
   * gets slot `k`, with its own PIN and start time) and a further claim by a
   * new user is refused with ErrNoAvailableGpu.
   */
  lemma ExhaustAfterN(n: nat, basePort: int, calls: seq<ClaimCall>, late: ClaimCall)
    requires |calls| == n
    requires forall a, b :: 0 <= a < b < |calls| ==> calls[a].userId != calls[b].userId
    requires forall k :: 0 <= k < |calls| ==> calls[k].userId != late.userId
    ensures var st := ClaimAll(InitialPool(n, basePort), calls);
      && (forall k :: 0 <= k < n ==>
            calls[k].userId in st.sessions
            && st.sessions[calls[k].userId]
               == Session(calls[k].userId, k, basePort + k * PortStride, calls[k].pin, calls[k].now))
      && ClaimSpec(st, late.userId, late.pin, late.now) == (st, Err(ErrNoAvailableGpu))
  {
    FillInOrder(n, basePort, calls);
    var st := ClaimAll(InitialPool(n, basePort), calls);
    forall k | 0 <= k < n
      ensures calls[k].userId in st.sessions
    {
      assert UsersOf(calls)[k] == calls[k].userId;
    }
    assert late.userId !in UsersOf(calls);
  }

  /** A successful claim by a new user returns the lease it records. */
  lemma ClaimReturnsLease(st: PoolState, userId: string, pin: string, now: int)
    requires userId !in st.sessions
    ensures var (st1, r) := ClaimSpec(st, userId, pin, now);
      r.Ok? ==> userId in st1.sessions && r.value == st1.sessions[userId]
  {
  }

  /**
   * Two slots from base port 47984 have ports 47984 and 47994: alice gets
   * slot 0 on port 47984, bob slot 1 on port 47994, each with the PIN and
   * start time of their own claim, and carol is refused.
   */
  lemma TwoSlotsFill(pinA: string, nowA: int, pinB: string, nowB: int, pinC: string, nowC: int)
    ensures var st0 := InitialPool(2, 47984);
      var (st1, alice) := ClaimSpec(st0, "alice", pinA, nowA);
      var (st2, bob) := ClaimSpec(st1, "bob", pinB, nowB);
      var (st3, carol) := ClaimSpec(st2, "carol", pinC, nowC);
      && st0.gpus[0].port == 47984 && st0.gpus[1].port == 47994
      && alice == Ok(Session("alice", 0, 47984, pinA, nowA))
      && bob == Ok(Session("bob", 1, 47994, pinB, nowB))
      && carol == Err(ErrNoAvailableGpu) && st3 == st2
      && st2 == ClaimAll(st0, [ClaimCall("alice", pinA, nowA), ClaimCall("bob", pinB, nowB)])
  {
    var a, b := ClaimCall("alice", pinA, nowA), ClaimCall("bob", pinB, nowB);
    var st0 := InitialPool(2, 47984);
    var (st1, alice) := ClaimSpec(st0, "alice", pinA, nowA);
    var (st2, bob) := ClaimSpec(st1, "bob", pinB, nowB);
    assert ClaimAll(st0, [a]) == st1 by { assert [a][..0] == []; }
    assert ClaimAll(st0, [a, b]) == st2 by { assert [a, b][..1] == [a]; }
    FillInOrder(2, 47984, [a]);
    ExhaustAfterN(2, 47984, [a, b], ClaimCall("carol", pinC, nowC));
    ClaimReturnsLease(st0, "alice", pinA, nowA);
    ClaimReturnsLease(st1, "bob", pinB, nowB);
  }

  /**
   * In that full pool of two, once alice releases the lease, carol gets slot 0
   * on port 47984.
   */
  lemma TwoSlotsReuse(pinA: string, nowA: int, pinB: string, nowB: int, pinC: string, nowC: int)
    ensures var st2 := ClaimAll(InitialPool(2, 47984), [ClaimCall("alice", pinA, nowA), ClaimCall("bob", pinB, nowB)]);
      && "alice" in st2.sessions && 0 <= st2.sessions["alice"].gpuId < |st2.gpus|
      && var (st4, released) := ReleaseSpec(st2, "alice");
         var (_, carol) := ClaimSpec(st4, "carol", pinC, nowC);
         && released.None?
         && carol == Ok(Session("carol", 0, 47984, pinC, nowC))
  {
    var calls := [ClaimCall("alice", pinA, nowA), ClaimCall("bob", pinB, nowB)];
    FillInOrder(2, 47984, calls);
    var st2 := ClaimAll(InitialPool(2, 47984), calls);
    assert UsersOf(calls)[0] == "alice";
    assert Leased(st2, "alice");
    ReleaseThenClaimReuses(st2, "alice", "carol", pinC, nowC);
    ReleasePreservesConsistent(st2, "alice");
    ClaimPicksLowestFree(ReleaseSpec(st2, "alice").0, "carol", pinC, nowC);
  }
}
