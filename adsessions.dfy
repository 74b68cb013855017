/**
 * The ad-session record and its state machine: a session is created by `start`, opened
 * once by `opened`, and claimed once by `claim` after the minimum watch time.
 */
module AdSessions {
  import opened Results
  import opened Accounts

  type Nonce = string

  /** Minimum time, in seconds, between opening an ad and claiming its reward. */
  const MinWatchSeconds := 20

  datatype AdSession = AdSession(owner: UserId, createdAt: int,
                                 isOpened: bool, openedAt: Option<int>,
                                 isClaimed: bool, claimedAt: Option<int>)

  datatype SessionError =
    | MissingFields
    | InvalidNonce
    | NotOwner
    | AlreadyClaimed
    | NotOpened
    | TooFast(need: int, elapsed: int)

  /** Timestamps are set exactly with their flags, and only an opened session is ever claimed. */
  predicate WellFormed(s: AdSession)
  {
    (s.isOpened <==> s.openedAt.Some?) && (s.isClaimed <==> s.claimedAt.Some?) && (s.isClaimed ==> s.isOpened)
  }

  /** A session as `start` stores it: owned by the caller, neither opened nor claimed. */
  function NewSession(owner: UserId, now: int): (s: AdSession)
    ensures WellFormed(s) && s.owner == owner && !s.isOpened && !s.isClaimed
  {
    AdSession(owner, now, false, None, false, None)
  }

  /** `opened` on an accepted session: records the time on the first call only. */
  function MarkOpened(s: AdSession, now: int): (r: AdSession)
  {
    if !s.isOpened then s.(isOpened := true, openedAt := Some(now)) else s
  }

  function MarkClaimed(s: AdSession, now: int): (r: AdSession)
  {
    s.(isClaimed := true, claimedAt := Some(now))
  }

  /** Why `opened` refuses a request, if it does; `s` is the session stored under the nonce. */
  function OpenRejection(uid: UserId, nonce: Nonce, s: Option<AdSession>): (r: Option<SessionError>)
    ensures r == Some(MissingFields) <==> uid == "" || nonce == ""
    ensures r == Some(InvalidNonce) <==> uid != "" && nonce != "" && s.None?
    ensures r == Some(NotOwner) <==> uid != "" && nonce != "" && s.Some? && s.value.owner != uid
    ensures r == None <==> uid != "" && nonce != "" && s.Some? && s.value.owner == uid
  {
    if uid == "" || nonce == "" then Some(MissingFields)
    else if s.None? then Some(InvalidNonce)
    else if s.value.owner != uid then Some(NotOwner)
    else None
  }

  /**
   * Why `claim` refuses a request, if it does, checked in this order: missing fields,
   * unknown nonce, foreign nonce, already claimed, not opened, under the minimum watch time.
   */
  function ClaimRejection(uid: UserId, nonce: Nonce, s: Option<AdSession>, elapsed: int): (r: Option<SessionError>)
    ensures r == Some(MissingFields) <==> uid == "" || nonce == ""
    ensures r == Some(InvalidNonce) <==> uid != "" && nonce != "" && s.None?
    ensures r == Some(NotOwner) <==> uid != "" && nonce != "" && s.Some? && s.value.owner != uid
    ensures r == Some(AlreadyClaimed) <==>
              uid != "" && nonce != "" && s.Some? && s.value.owner == uid && s.value.isClaimed
    ensures r == Some(NotOpened) <==>
              uid != "" && nonce != "" && s.Some? && s.value.owner == uid && !s.value.isClaimed &&
              (!s.value.isOpened || s.value.openedAt.None?)
    ensures r.Some? && r.value.TooFast? <==>
              uid != "" && nonce != "" && s.Some? && s.value.owner == uid && !s.value.isClaimed &&
              s.value.isOpened && s.value.openedAt.Some? && elapsed < MinWatchSeconds
    ensures r.Some? && r.value.TooFast? ==> r.value == TooFast(MinWatchSeconds, elapsed)
    ensures r == None <==>
              uid != "" && nonce != "" && s.Some? && s.value.owner == uid && !s.value.isClaimed &&
              s.value.isOpened && s.value.openedAt.Some? && elapsed >= MinWatchSeconds
  {
    if uid == "" || nonce == "" then Some(MissingFields)
    else if s.None? then Some(InvalidNonce)
    else if s.value.owner != uid then Some(NotOwner)
    else if s.value.isClaimed then Some(AlreadyClaimed)
    else if !s.value.isOpened || s.value.openedAt.None? then Some(NotOpened)
    else if elapsed < MinWatchSeconds then Some(TooFast(MinWatchSeconds, elapsed))
    else None
  }

  // ---------------------------------------------------------------------------------------
  // Properties of the state machine

  lemma TransitionsKeepWellFormed(s: AdSession, now: int)
    requires WellFormed(s)
    ensures WellFormed(MarkOpened(s, now))
    ensures s.isOpened ==> WellFormed(MarkClaimed(s, now))
  {
  }

  /** Opening is idempotent: the first call fixes the open time, later calls change nothing. */
  lemma OpenIdempotent(s: AdSession, t1: int, t2: int)
    ensures MarkOpened(MarkOpened(s, t1), t2) == MarkOpened(s, t1)
    ensures MarkOpened(s, t1).isOpened && MarkOpened(s, t1).owner == s.owner
    ensures s.isOpened ==> MarkOpened(s, t1) == s
  {
  }

  /** A claimed session can never be claimed again, whatever the timing. */
  lemma ClaimedOnlyOnce(uid: UserId, nonce: Nonce, s: AdSession, elapsed: int, now: int, elapsed2: int)
    requires ClaimRejection(uid, nonce, Some(s), elapsed) == None
    ensures ClaimRejection(uid, nonce, Some(MarkClaimed(s, now)), elapsed2) == Some(AlreadyClaimed)
  {
  }

  /** A session that was never opened cannot be claimed. */
  lemma ClaimBeforeOpen(owner: UserId, nonce: Nonce, created: int, elapsed: int)
    requires owner != "" && nonce != ""
    ensures ClaimRejection(owner, nonce, Some(NewSession(owner, created)), elapsed) == Some(NotOpened)
  {
  }

  /** A nonce presented by anybody but its owner is refused, whatever state the session is in. */
  lemma ForeignNonceRefused(uid: UserId, nonce: Nonce, s: AdSession, elapsed: int)
    requires uid != "" && nonce != "" && s.owner != uid
    ensures OpenRejection(uid, nonce, Some(s)) == Some(NotOwner)
    ensures ClaimRejection(uid, nonce, Some(s), elapsed) == Some(NotOwner)
  {
  }

  /** On an opened, unclaimed session the claim succeeds exactly from 20 seconds on. */
  lemma DwellBoundary(uid: UserId, nonce: Nonce, s: AdSession, elapsed: int)
    requires uid != "" && nonce != "" && s.owner == uid && WellFormed(s) && s.isOpened && !s.isClaimed
    ensures ClaimRejection(uid, nonce, Some(s), elapsed) == None <==> elapsed >= 20
    ensures elapsed < 20 ==> ClaimRejection(uid, nonce, Some(s), elapsed) == Some(TooFast(20, elapsed))
  {
  }

  /** The open step does not look at `claimed`: on a claimed session it answers ok and changes nothing. */
  lemma OpenAcceptsClaimedSession(uid: UserId, nonce: Nonce, s: AdSession, now: int)
    requires uid != "" && nonce != "" && s.owner == uid && WellFormed(s) && s.isClaimed
    ensures OpenRejection(uid, nonce, Some(s)) == None && MarkOpened(s, now) == s
  {
  }
}
