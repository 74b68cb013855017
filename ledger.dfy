/**
 * The points ledger: the six tables of the reward program (users, ad sessions, daily
 * participation, pool days, promo codes and promo redemptions) held by one object, with the
 * operations that change them step by step, as the request handlers and the daily job do.
 *
 * The clock (`now`, in seconds), the UTC day key, the seconds elapsed since an ad was opened
 * and the random bytes behind nonces and referral codes are parameters.
 */
module Ledger {
  import opened Results
  import opened Codes
  import opened Accounts
  import opened AdSessions
  import opened Pool
  import opened Promos

  /** A UTC calendar date, "YYYY-MM-DD". */
  type DayKey = string

  datatype StartError = MissingTgId | ServerError

  datatype StartReceipt = StartReceipt(nonce: Nonce, minWatchSeconds: int)

  datatype ClaimReceipt = ClaimReceipt(userPointsAdded: int, poolPointsAdded: int, day: DayKey)

  function Lookup<K, V>(m: map<K, V>, k: K): (r: Option<V>)
    ensures r.Some? <==> k in m
    ensures r.Some? ==> r.value == m[k]
  {
    if k in m then Some(m[k]) else None
  }

  /** The pool record of a day, as `INSERT OR IGNORE` leaves it. */
  function DayRecord(poolDays: map<DayKey, PoolDay>, day: DayKey): (d: PoolDay)
  {
    if day in poolDays then poolDays[day] else EmptyDay
  }

  /** The ticket count of (day, user); a missing row counts 0. */
  function TicketCount(participation: map<(DayKey, UserId), int>, day: DayKey, uid: UserId): (n: int)
  {
    if (day, uid) in participation then participation[(day, uid)] else 0
  }

  /** The ticket counts of the listed participants, in their order. */
  function Counts(participation: map<(DayKey, UserId), int>, day: DayKey, order: seq<UserId>): (ts: seq<int>)
    requires forall i :: 0 <= i < |order| ==> (day, order[i]) in participation
    ensures |ts| == |order|
    ensures forall i :: 0 <= i < |order| ==> ts[i] == participation[(day, order[i])]
  {
    seq(|order|, i requires 0 <= i < |order| => participation[(day, order[i])])
  }

  /** Every day that was distributed before still is. */
  ghost predicate SealsKept(before: map<DayKey, PoolDay>, after: map<DayKey, PoolDay>)
  {
    forall d :: d in before && before[d].distributed ==> d in after && after[d].distributed
  }

  /** A stored user has a non-empty id and, if referred, an existing referrer other than itself. */
  ghost predicate UserSound(users: map<UserId, User>, u: UserId)
  {
    u in users ==>
      u != "" && (users[u].referrer.Some? ==> users[u].referrer.value in users && users[u].referrer.value != u)
  }

  ghost predicate UsersValid(users: map<UserId, User>)
  {
    UniqueCodes(users) && forall u {:trigger UserSound(users, u)} :: UserSound(users, u)
  }

  /** A stored session belongs to an existing user and is well formed. */
  ghost predicate SessionSound(sessions: map<Nonce, AdSession>, ids: set<UserId>, n: Nonce)
  {
    n in sessions ==> sessions[n].owner in ids && WellFormed(sessions[n])
  }

  ghost predicate SessionsValid(sessions: map<Nonce, AdSession>, ids: set<UserId>)
  {
    forall n {:trigger SessionSound(sessions, ids, n)} :: SessionSound(sessions, ids, n)
  }

  /** A participation row belongs to an existing user. */
  ghost predicate RowSound(participation: map<(DayKey, UserId), int>, ids: set<UserId>, k: (DayKey, UserId))
  {
    k in participation ==> k.1 in ids
  }

  ghost predicate ParticipationValid(participation: map<(DayKey, UserId), int>, ids: set<UserId>)
  {
    forall k {:trigger RowSound(participation, ids, k)} :: RowSound(participation, ids, k)
  }

  class Ledger {
    var users: map<UserId, User>
    var sessions: map<Nonce, AdSession>
    var participation: map<(DayKey, UserId), int>
    var poolDays: map<DayKey, PoolDay>
    var promoCodes: map<string, PromoCode>
    var redemptions: set<(string, UserId)>

    /** The consistency of the tables that every operation keeps. */
    ghost predicate Valid()
      reads this`users, this`sessions, this`participation, this`promoCodes, this`redemptions
    {
      UsersValid(users) &&
      SessionsValid(sessions, users.Keys) &&
      ParticipationValid(participation, users.Keys) &&
      PromosValid(promoCodes, redemptions)
    }

    /** Empty tables, with the promo codes an administrator created (unused). */
    constructor (promos: map<string, PromoCode>)
      requires forall c :: c in promos ==> 0 == promos[c].uses <= promos[c].maxUses
      ensures Valid()
      ensures users == map[] && sessions == map[] && participation == map[] && poolDays == map[]
      ensures promoCodes == promos && redemptions == {}
    {
      users, sessions, participation, poolDays := map[], map[], map[], map[];
      promoCodes, redemptions := promos, {};
      new;
      forall c | c in promos
        ensures promos[c].uses == |Redeemers({}, c)|
      {
        assert Redeemers({}, c) == {};
      }
    }

    // -------------------------------------------------------------------------------------
    // Users and referrals

    /**
     * Returns the user `uid`, creating it on first contact with the first referral code
     * drawn from `draws` that no user has yet. The empty id is refused.
     */
    method EnsureUser(uid: UserId, draws: seq<seq<byte>>) returns (r: Option<User>, ghost k: nat)
      requires Valid()
      requires forall i :: 0 <= i < |draws| ==> |draws[i]| == ReferralCodeBytes
      requires uid != "" && uid !in users ==>
                 exists i :: 0 <= i < |draws| && GenReferralCode(draws[i]) !in ReferralCodes(users)
      modifies this
      ensures Valid()
      ensures sessions == old(sessions) && participation == old(participation) && poolDays == old(poolDays)
      ensures promoCodes == old(promoCodes) && redemptions == old(redemptions)
      ensures uid == "" ==> r == None && users == old(users)
      ensures uid in old(users) ==> users == old(users)
      ensures uid != "" ==> uid in users && r == Some(users[uid])
      ensures uid != "" && uid !in old(users) ==>
                k < |draws| &&
                (forall j :: 0 <= j < k ==> GenReferralCode(draws[j]) in ReferralCodes(old(users))) &&
                GenReferralCode(draws[k]) !in ReferralCodes(old(users)) &&
                users == old(users)[uid := NewUser(GenReferralCode(draws[k]))] &&
                (forall v :: v in old(users) ==> old(users)[v].referralCode != users[uid].referralCode)
    {
      k := 0;
      if uid == "" {
        return None, k;
      }
      if uid !in users {
        var code;
        code, k := PickReferralCode(ReferralCodes(users), draws);
        AddUserKeepsCodesUnique(users, uid, code);
        AddUserKeepsUsersValid(users, uid, code);
        var users' := users[uid := NewUser(code)];
        assert users'.Keys == users.Keys + {uid};
        MoreUsersKeepValid(sessions, participation, users.Keys, users'.Keys);
        users := users';
      }
      r := Some(users[uid]);
    }

    /**
     * Records the owner of `rawCode` as the referrer of `newUid` when referrals are enabled,
     * the code (trimmed, upper-cased) belongs to another user, and `newUid` exists without a
     * referrer. Returns the referrer recorded, if any.
     */
    method ApplyReferral(newUid: UserId, rawCode: string, enabled: bool) returns (applied: Option<UserId>)
      requires Valid()
      modifies this
      ensures Valid()
      ensures sessions == old(sessions) && participation == old(participation) && poolDays == old(poolDays)
      ensures promoCodes == old(promoCodes) && redemptions == old(redemptions)
      ensures applied.Some? <==>
                enabled && Normalize(rawCode) != "" &&
                CodeHolders(old(users), Normalize(rawCode)) != {} &&
                newUid !in CodeHolders(old(users), Normalize(rawCode)) &&
                newUid in old(users) && old(users)[newUid].referrer.None?
      ensures applied.Some? ==>
                applied.value in CodeHolders(old(users), Normalize(rawCode)) &&
                users == old(users)[newUid := old(users)[newUid].(referrer := applied)]
      ensures applied.None? ==> users == old(users)
    {
      var code := Normalize(rawCode);
      var holders := CodeHolders(users, code);
      var holder: Option<UserId> := None;
      if holders != {} {
        var h :| h in holders;
        holder := Some(h);
        CodeHoldersSpec(users, code);
        assert newUid in holders <==> h == newUid;
      }
      applied := ReferralDecision(enabled, code, holder, newUid, Lookup(users, newUid));
      if applied.Some? {
        SetReferrerKeepsUsersValid(users, newUid, applied.value);
        var users' := users[newUid := users[newUid].(referrer := applied)];
        assert users'.Keys == users.Keys;
        users := users';
      }
    }

    // -------------------------------------------------------------------------------------
    // Promo codes

    /**
     * Redeems the typed promo code for `uid`: refused when promos are disabled, the code is
     * missing or inactive, its uses reached the cap, or `uid` already redeemed it; otherwise
     * records the redemption, counts the use and credits the code's points.
     */
    method RedeemPromo(uid: UserId, rawCode: string, enabled: bool) returns (r: Result<int, PromoError>)
      requires Valid()
      modifies this
      ensures Valid()
      ensures sessions == old(sessions) && participation == old(participation) && poolDays == old(poolDays)
      ensures var code := Normalize(rawCode);
              var rej := PromoRejection(enabled, ActivePromo(old(promoCodes), code), (code, uid) in old(redemptions));
              rej.Some? ==> r == Err(rej.value) && unchanged(this)
      ensures var code := Normalize(rawCode);
              var rej := PromoRejection(enabled, ActivePromo(old(promoCodes), code), (code, uid) in old(redemptions));
              rej.None? ==>
                r == Ok(old(promoCodes)[code].points) &&
                redemptions == old(redemptions) + {(code, uid)} &&
                promoCodes == old(promoCodes)[code := old(promoCodes)[code].(uses := old(promoCodes)[code].uses + 1)] &&
                users == Credit(old(users), uid, old(promoCodes)[code].points)
      ensures forall c :: c in promoCodes ==> promoCodes[c].uses <= promoCodes[c].maxUses
    {
      var code := Normalize(rawCode);
      var promo := ActivePromo(promoCodes, code);
      var rej := PromoRejection(enabled, promo, (code, uid) in redemptions);
      if rej.Some? {
        UsesWithinCap(promoCodes, redemptions);
        return Err(rej.value);
      }
      RedeemKeepsPromosValid(promoCodes, redemptions, code, uid);
      CreditKeepsUsersValid(users, uid, promo.value.points);
      redemptions := redemptions + {(code, uid)};
      promoCodes := promoCodes[code := promoCodes[code].(uses := promoCodes[code].uses + 1)];
      users := Credit(users, uid, promo.value.points);
      UsesWithinCap(promoCodes, redemptions);
      r := Ok(promo.value.points);
    }

    // -------------------------------------------------------------------------------------
    // Ad sessions

    /**
     * `start`: creates the user if needed, then stores a new session under the nonce drawn
     * from `nonceDraw`, owned by `uid`, neither opened nor claimed. A nonce that is already
     * stored violates the table's key and fails the request (after the user was created).
     */
    method StartAd(uid: UserId, draws: seq<seq<byte>>, nonceDraw: seq<byte>, now: int)
      returns (r: Result<StartReceipt, StartError>)
      requires Valid()
      requires forall i :: 0 <= i < |draws| ==> |draws[i]| == ReferralCodeBytes
      requires uid != "" && uid !in users ==>
                 exists i :: 0 <= i < |draws| && GenReferralCode(draws[i]) !in ReferralCodes(users)
      requires |nonceDraw| == NonceBytes
      modifies this
      ensures Valid()
      ensures participation == old(participation) && poolDays == old(poolDays)
      ensures promoCodes == old(promoCodes) && redemptions == old(redemptions)
      ensures uid == "" ==> r == Err(MissingTgId) && unchanged(this)
      ensures uid != "" ==> uid in users && old(users).Keys + {uid} == users.Keys
      ensures uid != "" && uid !in old(users) ==>
                users[uid].points == 0 && users[uid].referrer == None &&
                users[uid].referralCode !in ReferralCodes(old(users))
      ensures forall u :: u in old(users) ==> u in users && users[u] == old(users)[u]
      ensures uid != "" && NonceOf(nonceDraw) in old(sessions) ==> r == Err(ServerError) && sessions == old(sessions)
      ensures uid != "" && NonceOf(nonceDraw) !in old(sessions) ==>
                r == Ok(StartReceipt(NonceOf(nonceDraw), MinWatchSeconds)) &&
                sessions == old(sessions)[NonceOf(nonceDraw) := NewSession(uid, now)]
    {
      if uid == "" {
        return Err(MissingTgId);
      }
      var _, _ := EnsureUser(uid, draws);
      var nonce := NonceOf(nonceDraw);
      if nonce in sessions {
        return Err(ServerError);
      }
      StoreSessionKeepsValid(sessions, users.Keys, nonce, NewSession(uid, now));
      sessions := sessions[nonce := NewSession(uid, now)];
      r := Ok(StartReceipt(nonce, MinWatchSeconds));
    }

    /** `opened`: marks the caller's session opened at `now`, the first time only. */
    method MarkAdOpened(uid: UserId, nonce: Nonce, now: int) returns (r: Result<(), SessionError>)
      requires Valid()
      modifies this
      ensures Valid()
      ensures users == old(users) && participation == old(participation) && poolDays == old(poolDays)
      ensures promoCodes == old(promoCodes) && redemptions == old(redemptions)
      ensures var rej := OpenRejection(uid, nonce, Lookup(old(sessions), nonce));
              rej.Some? ==> r == Err(rej.value) && sessions == old(sessions)
      ensures var rej := OpenRejection(uid, nonce, Lookup(old(sessions), nonce));
              rej.None? ==> r == Ok(()) && sessions == old(sessions)[nonce := MarkOpened(old(sessions)[nonce], now)]
    {
      var rej := OpenRejection(uid, nonce, Lookup(sessions, nonce));
      if rej.Some? {
        return Err(rej.value);
      }
      var s := sessions[nonce];
      SessionOf(sessions, users.Keys, nonce);
      TransitionsKeepWellFormed(s, now);
      StoreSessionKeepsValid(sessions, users.Keys, nonce, MarkOpened(s, now));
      if !s.isOpened {
        sessions := sessions[nonce := s.(isOpened := true, openedAt := Some(now))];
      }
      r := Ok(());
    }

    /**
     * `claim`: after the checks of ClaimRejection, credits the caller 1 point, adds 1 to the
     * pool of `day` (creating it at 0), adds 1 to the caller's tickets of `day` and marks the
     * session claimed at `now`. A refused claim changes nothing.
     */
    method ClaimAd(uid: UserId, nonce: Nonce, elapsed: int, day: DayKey, now: int)
      returns (r: Result<ClaimReceipt, SessionError>)
      requires Valid()
      modifies this
      ensures Valid()
      ensures SealsKept(old(poolDays), poolDays)
      ensures var rej := ClaimRejection(uid, nonce, Lookup(old(sessions), nonce), elapsed);
              rej.Some? ==> r == Err(rej.value) && unchanged(this)
      ensures var rej := ClaimRejection(uid, nonce, Lookup(old(sessions), nonce), elapsed);
              rej.None? ==>
                r == Ok(ClaimReceipt(1, 1, day)) &&
                uid in old(users) &&
                users == old(users)[uid := old(users)[uid].(points := old(users)[uid].points + 1)] &&
                poolDays == old(poolDays)[day := DayRecord(old(poolDays), day).(poolPoints := DayRecord(old(poolDays), day).poolPoints + 1)] &&
                participation == old(participation)[(day, uid) := TicketCount(old(participation), day, uid) + 1] &&
                sessions == old(sessions)[nonce := MarkClaimed(old(sessions)[nonce], now)] &&
                promoCodes == old(promoCodes) && redemptions == old(redemptions)
    {
      var rej := ClaimRejection(uid, nonce, Lookup(sessions, nonce), elapsed);
      if rej.Some? {
        return Err(rej.value);
      }
      var s := sessions[nonce];
      SessionOf(sessions, users.Keys, nonce);
      CreditKeepsUsersValid(users, uid, 1);
      TransitionsKeepWellFormed(s, now);
      StoreSessionKeepsValid(sessions, users.Keys, nonce, MarkClaimed(s, now));
      users := Credit(users, uid, 1);
      var d := DayRecord(poolDays, day);  // INSERT OR IGNORE, then add 1
      CountTicketKeepsValid(participation, users.Keys, day, uid, TicketCount(participation, day, uid) + 1);
      BumpPoolKeepsSeals(poolDays, day, d.(poolPoints := d.poolPoints + 1));
      poolDays := poolDays[day := d.(poolPoints := d.poolPoints + 1)];
      participation := participation[(day, uid) := TicketCount(participation, day, uid) + 1];
      sessions := sessions[nonce := MarkClaimed(s, now)];
      r := Ok(ClaimReceipt(1, 1, day));
    }

    // -------------------------------------------------------------------------------------
    // Daily distribution

    /** Replaces the balances with `balances`, which keeps every user, code and referrer. */
    method SetBalances(balances: map<UserId, User>)
      requires Valid() && balances.Keys == users.Keys
      requires forall u :: u in users ==>
                 balances[u].referralCode == users[u].referralCode && balances[u].referrer == users[u].referrer
      modifies this`users
      ensures Valid() && users == balances
    {
      AccountsKeptKeepUsersValid(users, balances);
      users := balances;
    }

    /**
     * Distributes the pool of `day` over its participants, listed in `order` (the rows of
     * `day` with a positive count, each once, in whatever order the store returns them), and
     * marks the day distributed. A day already distributed is left as it is. That `order`
     * lists every such row is not needed here; EveryParticipantPaid draws its consequence.
     */
    method DistributePoolForDay(day: DayKey, order: seq<UserId>, now: int) returns (r: DistributionOutcome)
      requires Valid()
      requires NoDuplicates(order)
      requires forall i :: 0 <= i < |order| ==> (day, order[i]) in participation && participation[(day, order[i])] > 0
      modifies this
      ensures Valid()
      ensures sessions == old(sessions) && participation == old(participation)
      ensures promoCodes == old(promoCodes) && redemptions == old(redemptions)
      ensures day in poolDays && poolDays[day].distributed
      ensures SealsKept(old(poolDays), poolDays)
      ensures r == Distribution(DayRecord(old(poolDays), day), Counts(old(participation), day, order))
      ensures r == AlreadyDistributed ==> unchanged(this)
      ensures r != AlreadyDistributed ==> poolDays == old(poolDays)[day := Sealed(DayRecord(old(poolDays), day), now)]
      ensures users == if r.Distributed? then CreditAll(old(users), order, r.payouts) else old(users)
    {
      if day !in poolDays {
        poolDays := poolDays[day := EmptyDay];
      }
      var d := poolDays[day];
      if d.distributed {
        return AlreadyDistributed;
      }
      var pool := d.poolPoints;
      if pool <= 0 {
        poolDays := poolDays[day := Sealed(d, now)];
        return SealedEmptyPool;
      }
      var ts := Counts(participation, day, order);
      var total := Sum(ts);
      SumOfPositives(ts);
      if total <= 0 {
        poolDays := poolDays[day := Sealed(d, now)];
        return SealedNoTickets;
      }
      r := PayDay(day, d, order, ts, now);
    }

    /** The paying branch of the daily job (pool and tickets positive): pays, then seals the day. */
    method PayDay(day: DayKey, d: PoolDay, order: seq<UserId>, ts: seq<int>, now: int) returns (r: DistributionOutcome)
      requires Valid()
      requires |ts| == |order| && AllNonNegative(ts) && !d.distributed && d.poolPoints > 0 && Sum(ts) > 0
      modifies this`users, this`poolDays
      ensures Valid()
      ensures r == Distribution(d, ts)
      ensures poolDays == old(poolDays)[day := Sealed(d, now)]
      ensures users == CreditAll(old(users), order, r.payouts)
    {
      var pool, total := d.poolPoints, Sum(ts);
      var perTicket := pool / total;
      var remainder := pool - perTicket * total;
      var payouts, balances := PayOut(users, order, ts, perTicket, remainder);
      CreditAllKeepsAccounts(users, order, payouts);
      SetBalances(balances);
      poolDays := poolDays[day := Sealed(d, now)];
      r := Distributed(perTicket, remainder, payouts);
    }
  }

  /** `order` lists every participant of `day`. */
  ghost predicate ListsParticipants(participation: map<(DayKey, UserId), int>, day: DayKey, order: seq<UserId>)
  {
    forall u :: (day, u) in participation && participation[(day, u)] > 0 ==> u in order
  }

  /** When `order` lists every participant of `day`, each of them is credited its payout. */
  lemma EveryParticipantPaid(participation: map<(DayKey, UserId), int>, day: DayKey, order: seq<UserId>,
                             users0: map<UserId, User>, payouts: seq<int>, u: UserId)
    requires NoDuplicates(order) && |payouts| == |order| && ListsParticipants(participation, day, order)
    requires (day, u) in participation && participation[(day, u)] > 0 && u in users0
    ensures exists i :: 0 <= i < |order| && order[i] == u &&
              CreditAll(users0, order, payouts)[u].points == users0[u].points + payouts[i]
  {
    var i :| 0 <= i < |order| && order[i] == u;
    CreditAllEffect(users0, order, payouts);
  }

  /**
   * The payout loop: walks the participants in `order` holding tickets `ts`, giving each
   * perTicket points per ticket plus one point per ticket while the remainder lasts, and
   * credits every positive gain. Returns the payouts in row order and the new balances.
   */
  method PayOut(users0: map<UserId, User>, order: seq<UserId>, ts: seq<int>, perTicket: int, remainder0: int)
    returns (payouts: seq<int>, users: map<UserId, User>)
    requires |ts| == |order| && AllNonNegative(ts) && perTicket >= 0
    ensures payouts == Shares(ts, perTicket, remainder0)
    ensures users == CreditAll(users0, order, payouts)
  {
    var remainder := remainder0;
    payouts, users := [], users0;
    var i := 0;
    while i < |order|
      invariant 0 <= i <= |order|
      invariant remainder == Left(ts[..i], remainder0)
      invariant payouts == Shares(ts[..i], perTicket, remainder0)
      invariant users == CreditAll(users0, order[..i], payouts)
    {
      var t := ts[i];
      var gain := perTicket * t;
      ghost var left, before := remainder, users;
      if remainder > 0 {
        var extra := Min(remainder, t);
        gain := gain + extra;
        remainder := remainder - extra;
      }
      if gain > 0 {
        users := Credit(users, order[i], gain);
      } else {
        CreditNothing(users, order[i], gain);
      }
      PayStep(users0, order, ts, perTicket, remainder0, i, left, payouts, before, gain, remainder, users);
      payouts := payouts + [gain];
      i := i + 1;
    }
    assert order[..|order|] == order && ts[..|ts|] == ts;
  }

  /** The total of positive ticket counts is at least the number of participants. */
  lemma {:induction false} SumOfPositives(ts: seq<int>)
    requires forall i :: 0 <= i < |ts| ==> ts[i] > 0
    ensures AllNonNegative(ts) && Sum(ts) >= |ts|
  {
    if |ts| > 0 {
      SumOfPositives(ts[..|ts| - 1]);
    }
  }

  /**
   * One step of the distribution loop: if rows 0..i-1 left `left` of the remainder, were paid
   * `payouts` and credited into `before`, then paying row i its gain extends all three by row i.
   */
  lemma PayStep(users0: map<UserId, User>, order: seq<UserId>, ts: seq<int>, p: int, rem0: int, i: int,
                left: int, payouts: seq<int>, before: map<UserId, User>, gain: int, left': int, after: map<UserId, User>)
    requires |ts| == |order| && 0 <= i < |order|
    requires left == Left(ts[..i], rem0) && payouts == Shares(ts[..i], p, rem0)
    requires before == CreditAll(users0, order[..i], payouts)
    requires gain == p * ts[i] + Extra(left, ts[i]) && left' == left - Extra(left, ts[i])
    requires after == Credit(before, order[i], gain)
    ensures left' == Left(ts[..i + 1], rem0)
    ensures payouts + [gain] == Shares(ts[..i + 1], p, rem0)
    ensures after == CreditAll(users0, order[..i + 1], payouts + [gain])
  {
    assert ts[..i + 1][..i] == ts[..i];
    assert order[..i + 1][..i] == order[..i];
    assert (payouts + [gain])[..i] == payouts;
  }

  /** Changing balances only keeps the users consistent. */
  lemma AccountsKeptKeepUsersValid(before: map<UserId, User>, after: map<UserId, User>)
    requires UsersValid(before) && after.Keys == before.Keys
    requires forall u :: u in before ==>
               after[u].referralCode == before[u].referralCode && after[u].referrer == before[u].referrer
    ensures UsersValid(after)
  {
    forall u, v
      ensures CodesDiffer(after, u, v)
    {
      assert CodesDiffer(before, u, v);
    }
    forall u
      ensures UserSound(after, u)
    {
      assert UserSound(before, u);
    }
  }

  lemma CreditKeepsUsersValid(users: map<UserId, User>, uid: UserId, amount: int)
    requires UsersValid(users)
    ensures Credit(users, uid, amount).Keys == users.Keys && UsersValid(Credit(users, uid, amount))
  {
    AccountsKeptKeepUsersValid(users, Credit(users, uid, amount));
  }

  /** A new user (non-empty id, unused code) keeps the users consistent. */
  lemma AddUserKeepsUsersValid(users: map<UserId, User>, uid: UserId, code: string)
    requires UsersValid(users) && uid != "" && uid !in users && code !in ReferralCodes(users)
    ensures UsersValid(users[uid := NewUser(code)])
  {
    var m := users[uid := NewUser(code)];
    AddUserKeepsCodesUnique(users, uid, code);
    forall u
      ensures UserSound(m, u)
    {
      assert UserSound(users, u);
    }
  }

  /** Recording an existing other user as the referrer of `uid` keeps the users consistent. */
  lemma SetReferrerKeepsUsersValid(users: map<UserId, User>, uid: UserId, referrer: UserId)
    requires UsersValid(users) && uid in users && referrer in users && referrer != uid
    ensures UsersValid(users[uid := users[uid].(referrer := Some(referrer))])
  {
    var m := users[uid := users[uid].(referrer := Some(referrer))];
    forall u, v
      ensures CodesDiffer(m, u, v)
    {
      assert CodesDiffer(users, u, v);
    }
    forall u
      ensures UserSound(m, u)
    {
      assert UserSound(users, u);
    }
  }

  /** Growing the set of user ids keeps sessions and participation rows attached to users. */
  lemma MoreUsersKeepValid(sessions: map<Nonce, AdSession>, participation: map<(DayKey, UserId), int>,
                           ids: set<UserId>, ids': set<UserId>)
    requires SessionsValid(sessions, ids) && ParticipationValid(participation, ids) && ids <= ids'
    ensures SessionsValid(sessions, ids') && ParticipationValid(participation, ids')
  {
    forall n
      ensures SessionSound(sessions, ids', n)
    {
      assert SessionSound(sessions, ids, n);
    }
    forall k
      ensures RowSound(participation, ids', k)
    {
      assert RowSound(participation, ids, k);
    }
  }

  lemma StoreSessionKeepsValid(sessions: map<Nonce, AdSession>, ids: set<UserId>, nonce: Nonce, s: AdSession)
    requires SessionsValid(sessions, ids) && s.owner in ids && WellFormed(s)
    ensures SessionsValid(sessions[nonce := s], ids)
  {
    var m := sessions[nonce := s];
    forall n
      ensures SessionSound(m, ids, n)
    {
      assert SessionSound(sessions, ids, n);
    }
  }

  /** The session stored under a nonce belongs to an existing user and is well formed. */
  lemma SessionOf(sessions: map<Nonce, AdSession>, ids: set<UserId>, nonce: Nonce)
    requires SessionsValid(sessions, ids) && nonce in sessions
    ensures sessions[nonce].owner in ids && WellFormed(sessions[nonce])
  {
    assert SessionSound(sessions, ids, nonce);
  }

  lemma CountTicketKeepsValid(participation: map<(DayKey, UserId), int>, ids: set<UserId>, day: DayKey, uid: UserId, n: int)
    requires ParticipationValid(participation, ids) && uid in ids
    ensures ParticipationValid(participation[(day, uid) := n], ids)
  {
    var m := participation[(day, uid) := n];
    forall k
      ensures RowSound(m, ids, k)
    {
      assert RowSound(participation, ids, k);
    }
  }

  lemma BumpPoolKeepsSeals(poolDays: map<DayKey, PoolDay>, day: DayKey, d: PoolDay)
    requires day in poolDays ==> (poolDays[day].distributed ==> d.distributed)
    ensures SealsKept(poolDays, poolDays[day := d])
  {
  }

  // ---------------------------------------------------------------------------------------
  // Request sequences

  /**
   * The whole ad flow of a user: start, opened, then claim after `elapsed` seconds. With a
   * fresh nonce it pays exactly when the dwell time reached 20 seconds.
   */
  method WatchAd(l: Ledger, uid: UserId, draws: seq<seq<byte>>, nonceDraw: seq<byte>, elapsed: int,
                 day: DayKey, startedAt: int, openedAt: int, claimedAt: int)
    returns (start: Result<StartReceipt, StartError>, open: Result<(), SessionError>,
             claim: Result<ClaimReceipt, SessionError>)
    requires l.Valid() && uid != ""
    requires forall i :: 0 <= i < |draws| ==> |draws[i]| == ReferralCodeBytes
    requires uid !in l.users ==> exists i :: 0 <= i < |draws| && GenReferralCode(draws[i]) !in ReferralCodes(l.users)
    requires |nonceDraw| == NonceBytes && NonceOf(nonceDraw) !in l.sessions
    requires elapsed == claimedAt - openedAt
    modifies l
    ensures l.Valid()
    ensures start == Ok(StartReceipt(NonceOf(nonceDraw), MinWatchSeconds)) && open == Ok(())
    ensures elapsed >= MinWatchSeconds ==>
              claim == Ok(ClaimReceipt(1, 1, day)) && uid in l.users &&
              l.users[uid].points == (if uid in old(l.users) then old(l.users)[uid].points else 0) + 1 &&
              (day, uid) in l.participation && l.participation[(day, uid)] == TicketCount(old(l.participation), day, uid) + 1 &&
              day in l.poolDays && l.poolDays[day].poolPoints == DayRecord(old(l.poolDays), day).poolPoints + 1
    ensures elapsed < MinWatchSeconds ==> claim == Err(TooFast(MinWatchSeconds, elapsed))
  {
    start := l.StartAd(uid, draws, nonceDraw, startedAt);
    var nonce := NonceOf(nonceDraw);
    assert |nonce| == 32;
    open := l.MarkAdOpened(uid, nonce, openedAt);
    assert l.sessions[nonce].owner == uid && l.sessions[nonce].isOpened && !l.sessions[nonce].isClaimed;
    claim := l.ClaimAd(uid, nonce, elapsed, day, claimedAt);
  }

  /** A claim that succeeded is never paid twice: the same nonce claimed again is refused. */
  method ClaimTwice(l: Ledger, uid: UserId, nonce: Nonce, elapsed1: int, elapsed2: int, day: DayKey,
                    now1: int, now2: int)
    returns (first: Result<ClaimReceipt, SessionError>, second: Result<ClaimReceipt, SessionError>)
    requires l.Valid()
    modifies l
    ensures l.Valid()
    ensures first.Ok? ==>
              second == Err(AlreadyClaimed) && l.users == Credit(old(l.users), uid, 1) &&
              l.poolDays == old(l.poolDays)[day := DayRecord(old(l.poolDays), day).(poolPoints := DayRecord(old(l.poolDays), day).poolPoints + 1)] &&
              l.participation == old(l.participation)[(day, uid) := TicketCount(old(l.participation), day, uid) + 1]
  {
    first := l.ClaimAd(uid, nonce, elapsed1, day, now1);
    second := l.ClaimAd(uid, nonce, elapsed2, day, now2);
    if first.Ok? {
      assert ClaimRejection(uid, nonce, Lookup(old(l.sessions), nonce), elapsed1) == None;
      ClaimedOnlyOnce(uid, nonce, old(l.sessions)[nonce], elapsed1, now1, elapsed2);
    }
  }

  /** Running the daily job twice on a day is running it once: the second run changes nothing. */
  method DistributeTwice(l: Ledger, day: DayKey, order: seq<UserId>, now1: int, now2: int)
    returns (first: DistributionOutcome, second: DistributionOutcome)
    requires l.Valid() && NoDuplicates(order)
    requires forall i :: 0 <= i < |order| ==> (day, order[i]) in l.participation && l.participation[(day, order[i])] > 0
    modifies l
    ensures l.Valid()
    ensures second == AlreadyDistributed
    ensures first.Distributed? ==> |first.payouts| == |order| && l.users == CreditAll(old(l.users), order, first.payouts)
    ensures !first.Distributed? ==> l.users == old(l.users)
  {
    first := l.DistributePoolForDay(day, order, now1);
    second := l.DistributePoolForDay(day, order, now2);
  }
}
