# GPU lease broker — Dafny model

This project models the resource pool of the local cloud-gaming orchestrator
(`orchestrator/main.go`). The pool has a fixed table of GPU slots. Slot `i`
has ID `i` and port `basePort + 10*i`. A lease table maps each user ID to
that user's session. The pool has four operations:

- construction builds `count` free slots;
- `Claim` is idempotent per user and hands a new user the lowest free slot,
  or fails with `ErrNoAvailableGPU`;
- `Release` frees the user's slot, or fails with `ErrSessionNotFound`;
- `CleanupExpired` ends every lease that is older than the timeout.

The HTTP handlers are modelled only in what they decide. An empty `user_id`
gets 400 before the pool is touched. A broker error gets its own status
(503 or 404) and message. A success gets 200.

Files:

- `wrappers.dfy`: module `Wrappers` (`Option`, `Result`).
- `errors.dfy`: module `Errors`. The `HTTPError` struct, the two error values
  and the status codes.
- `pool.dfy`: module `Pool`. The slot and lease datatypes. The invariant
  `Consistent`: leases and unavailable slots correspond one to one, and a free
  slot has no holder. One pure step function per operation (`ClaimSpec`,
  `ReleaseSpec`, `CleanupSpec`). The lemmas about these steps.
- `orchestrator.dfy`: module `Broker`, class `Orchestrator`. The slots live in
  an `array<Gpu>` that is updated field by field, as the Go code does. The
  lease table is a `map` field. Each method requires and keeps `Valid()`, which
  is `Consistent` plus the fixed ID/port layout. Each method is proved to leave
  exactly the state that its `Pool` step function describes.
- `handlers.dfy`: module `Handlers`. The claim and release endpoints as
  functions on the pool state, and handler methods that run them on the object.

Inputs that the Go code reads itself are parameters here:

- the clock reading `now` goes to `Claim` and `CleanupExpired`;
- the pairing code `pin` goes to `Claim`;
- the configured `timeout` is a constant field of the object.

Timestamps are integers. `ZeroTime` stands for Go's zero `time.Time{}`.

`Release` resets `SessionStart` (`orchestrator/main.go:108`).
`CleanupExpired` sets `Available` and `UserID` but leaves `SessionStart` as it
was (`orchestrator/main.go:122-123`). The model keeps this difference
(`Pool.Released` versus `Pool.Reclaimed`), and `Pool.CleanupExact` states it.

## Model

| member | source | states |
|---|---|---|
| `Broker.Orchestrator.constructor` | orchestrator/main.go:40-55 | NewOrchestrator makes exactly `gpuCount` slots. Slot `i` is `{ID: i, Available: true, UserID: "", SessionStart: zero, Port: basePort + 10*i}`. The lease table is empty, the object's state is exactly `InitialPool(gpuCount, basePort)`, and the invariant holds. |
| `Pool.InitialPool` | orchestrator/main.go:40-55 | The freshly built state has `n` free slots with no holder, no leases, and IDs and ports `basePort + 10*i`. It satisfies the invariant. |
| `Broker.Orchestrator.Status` | orchestrator/main.go:57-61 | Returns the current slots in index order. Their IDs and ports follow the layout. A free slot has no holder. An unavailable slot's holder has a lease. |
| `Broker.Orchestrator.Claim` | orchestrator/main.go:63-95 | The in-place scan and field updates leave exactly the state and result of `ClaimSpec`, and keep the invariant and the port layout. |
| `Pool.FirstFree` | orchestrator/main.go:73-74 | Finds the lowest index of an available slot: it is available and every lower slot is not. Finds none only when no slot is available. |
| `Pool.FirstFreeIs` | orchestrator/main.go:73-74 | An available slot with no available slot below it is the one the scan picks. |
| `Pool.ClaimIdempotent` | orchestrator/main.go:67-70 | A user who holds a lease gets that same session back (same GPU, same PIN) and no slot or lease changes. A second claim after a successful one returns the same session and changes nothing. |
| `Pool.ClaimPicksLowestFree` | orchestrator/main.go:72-94 | A new user's claim takes the lowest available slot. That slot becomes unavailable, held by the user, and started now. The session has that slot's ID and port, the given PIN and the start time. No other slot changes. The lease table gains exactly that entry. On failure the error is `ErrNoAvailableGPU`, every slot is unavailable, and nothing changes. |
| `Pool.ClaimFailsIffFull` | orchestrator/main.go:73-94 | A new user's claim fails exactly when there are as many leases as slots. On success there is one more lease. |
| `Pool.PoolFullIff` | orchestrator/main.go:73-94 | No slot is available exactly when the number of leases equals the number of slots. |
| `Pool.ClaimPreservesConsistent` | orchestrator/main.go:63-95 | Claim keeps the one-to-one correspondence between leases and unavailable slots. Slot IDs and ports do not change. |
| `Broker.Orchestrator.Release` | orchestrator/main.go:97-113 | The in-place field updates and the map delete leave exactly the state and result of `ReleaseSpec`, and keep the invariant and the port layout. |
| `Pool.ReleaseOutcome` | orchestrator/main.go:97-113 | Release succeeds exactly when the user has a lease. Without a lease it returns `ErrSessionNotFound` and changes nothing. With a lease, that slot becomes available with no holder and the zero start time, and no other slot changes. Only that lease is removed, the other leases keep their values, and there is one lease and one unavailable slot fewer. |
| `Pool.ReleasePreservesConsistent` | orchestrator/main.go:97-113 | Release keeps the invariant and the ID/port layout. The released lease's slot index is in range. |
| `Pool.ReleaseUndoesClaim` | orchestrator/main.go:63-113 | A release after a new user's successful claim gives back the leases exactly as before the claim. It gives back the slots exactly as before too, except that the freed slot's start time is the zero time. |
| `Pool.ReleaseThenClaimReuses` | orchestrator/main.go:63-113 | After a release, a claim by another user without a lease succeeds with a slot no higher than the freed one. If the pool was full, that user gets exactly the freed slot. |
| `Broker.Orchestrator.CleanupExpired` | orchestrator/main.go:115-128 | The loop over the lease table, which deletes as it goes, leaves exactly the state of `CleanupSpec`, whatever order the keys are visited in. It keeps the invariant and the port layout. |
| `Pool.SweepStep` | orchestrator/main.go:120-126 | One round of the sweep: an expired lease gets its slot reclaimed and its entry deleted, and a lease that is not expired leaves the set of swept users as it was. |
| `Pool.CleanupExact` | orchestrator/main.go:115-128 | The sweep removes exactly the leases with `now - StartedAt > timeout` and keeps the others unchanged. An expired lease's slot becomes available with no holder and keeps its `SessionStart`. The slots of the remaining leases, and the free slots, are untouched. |
| `Pool.CleanupPreservesConsistent` | orchestrator/main.go:115-128 | The sweep keeps the invariant and the ID/port layout. |
| `Pool.CleanupIdempotent` | orchestrator/main.go:119-127 | A second sweep at the same clock reading changes nothing. |
| `Pool.CleanupFreesForClaim` | orchestrator/main.go:63-127 | After a sweep that ended an expired lease, a claim by a user without a live lease succeeds with a slot no higher than the expired lease's slot. |
| `Pool.NoDoubleAssignment` | orchestrator/main.go:73-86 | Under the invariant, two different users never hold the same slot. |
| `Pool.SessionCount` | orchestrator/main.go:63-127 | Under the invariant, the number of unavailable slots equals the number of leases, and it is at most the number of slots. |
| `Pool.FillInOrder` | orchestrator/main.go:40-95 | From a fresh pool of `n` slots, `k <= n` claims by distinct users, each with its own PIN and clock reading, run in turn. Call `i` gets slot `i`, with port `basePort + 10*i` and that call's PIN and start time. Exactly these users hold leases, and slots `k..n-1` stay free. |
| `Pool.ExhaustAfterN` | orchestrator/main.go:40-95 | With `n` slots, `n` claims by distinct users all obtain leases: call `i` holds slot `i` with its port and its own PIN and start time. The next claim by a new user, with any PIN and clock reading, gets `ErrNoAvailableGPU`, and the state is unchanged. |
| `Pool.TwoSlotsFill` | orchestrator/main.go:40-95 | Two slots from base port 47984 have ports 47984 and 47994. alice gets slot 0 on port 47984 and bob gets slot 1 on port 47994, each with the PIN and start time of their own claim. carol is refused with `ErrNoAvailableGPU`, leaving the state unchanged. |
| `Pool.TwoSlotsReuse` | orchestrator/main.go:63-113 | In that full pool, alice's release succeeds, and carol then gets slot 0 on port 47984. |
| `Errors.ErrorValues` | orchestrator/main.go:130-140 | `ErrNoAvailableGPU` has status 503 and message "no GPU available". `ErrSessionNotFound` has status 404 and message "session not found". `Error()` reports the message, and the two statuses differ. |
| `Handlers.ErrorResponses` | orchestrator/main.go:179-197 | Both handlers answer a broker error through `ErrorResponse`, with the error's status and its message as the body (lines 179-180 and 196-197). The two broker errors therefore reach the client as 503 "no GPU available" and 404 "session not found". |
| `Handlers.ClaimEndpointStatus` | orchestrator/main.go:171-187 | The claim endpoint answers 400 "user_id required" exactly for an empty user ID, and the pool is untouched. It answers 503 "no GPU available" exactly when a new user finds every slot leased, and the pool is unchanged. Otherwise it answers 200 with the user's session. |
| `Handlers.ReleaseEndpointStatus` | orchestrator/main.go:189-204 | The release endpoint answers 400 "user_id required" exactly for an empty user ID. It answers 404 "session not found" exactly for a user without a lease. In both cases the pool is unchanged. Otherwise it answers 200 with an empty body, and the lease is gone. |
| `Handlers.HandleClaim` | orchestrator/main.go:171-187 | The claim handler run on the object yields exactly the response and state of `ClaimEndpoint`, and keeps the invariant. |
| `Handlers.HandleRelease` | orchestrator/main.go:189-204 | The release handler run on the object yields exactly the response and state of `ReleaseEndpoint`, and keeps the invariant. |

## Left out

- The mutex (`sync.RWMutex`) and the ticker goroutine that calls `CleanupExpired` every 5 minutes are not modelled. Concurrency is not modelled: each locked method is one atomic step of the class.
- `Broker.Orchestrator.Status` returns the slots as a value. The Go method returns the internal slice, which the caller encodes after the read lock is released, so the caller can race with a later update. Aliasing is not modelled.
- `time.Now()` and `time.Duration` are replaced by integers. `Claim` reads the clock twice (lines 77 and 84); the model uses one reading `now` for both, so a slot's `SessionStart` equals its session's `StartedAt`. The saturation of `time.Time.Sub` at the 64-bit bounds is not modelled.
- `generatePIN` is not modelled, because its value is derived from the wall clock. The PIN is an opaque parameter of `Claim`.
- Integer widths are not modelled. Ports are computed with unbounded integers, so a Go `int` overflow for huge base ports or counts is not captured.
- A negative GPU count, which makes Go's `make` panic, is excluded by the type `nat`.
- Index panics on `o.gpus[session.GPUID]` cannot happen under `Valid()`, so the model does not represent them.
- Sessions are stored as values, not `*Session` pointers. The broker never mutates a session after creating it, so nothing observable depends on the pointer.
- HTTP routing, chi middleware, JSON encoding, the `GET /api/status` handler and the dashboard file server are not modelled. Responses are reduced to a status and one of three body shapes.
- The handlers' fallback to status 500 for an error that is not an `*HTTPError` is not modelled. The broker returns no other kind of error, so that branch cannot be taken.
- Reading `GPU_COUNT`, `BASE_PORT` and `SESSION_TIMEOUT` from the environment, and parsing them, are not modelled.
- `log.Printf` calls are not modelled, because they are observability side effects only.
