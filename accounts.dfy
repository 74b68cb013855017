/**
 * User accounts: the points balance, the user's own referral code and the referrer link,
 * the additive balance update every grant uses, and the referral decision.
 */
module Accounts {
  import opened Results

  /** Telegram user ids are opaque strings; the empty id is refused on creation. */
  type UserId = string

  datatype User = User(points: int, referralCode: string, referrer: Option<UserId>)

  /** A freshly created user: no points, the given referral code, no referrer. */
  function NewUser(code: string): (u: User)
    ensures u.points == 0 && u.referralCode == code && u.referrer == None
  {
    User(0, code, None)
  }

  /** Adds `amount` to the balance of `uid`; a user that does not exist is left alone. */
  function Credit(users: map<UserId, User>, uid: UserId, amount: int): (r: map<UserId, User>)
    ensures r.Keys == users.Keys
    ensures uid in users ==> r[uid] == users[uid].(points := users[uid].points + amount)
    ensures forall u :: u in users && u != uid ==> r[u] == users[u]
  {
    if uid in users then users[uid := users[uid].(points := users[uid].points + amount)] else users
  }

  /** Crediting 0 points changes nothing. */
  lemma CreditNothing(users: map<UserId, User>, uid: UserId, amount: int)
    requires amount == 0
    ensures Credit(users, uid, amount) == users
  {
    if uid in users {
      assert users[uid].(points := users[uid].points + amount) == users[uid];
    }
  }

  /** Credits ids[i] with amounts[i], first row first. */
  function CreditAll(users: map<UserId, User>, ids: seq<UserId>, amounts: seq<int>): (r: map<UserId, User>)
    requires |ids| == |amounts|
    ensures r.Keys == users.Keys
  {
    if |ids| == 0 then users
    else Credit(CreditAll(users, ids[..|ids| - 1], amounts[..|amounts| - 1]), ids[|ids| - 1], amounts[|amounts| - 1])
  }

  predicate NoDuplicates<T(==)>(xs: seq<T>)
  {
    forall i, j :: 0 <= i < j < |xs| ==> xs[i] != xs[j]
  }

  /** Every listed user (listed once) gains exactly its amount; everybody else is untouched. */
  lemma {:induction false} CreditAllEffect(users: map<UserId, User>, ids: seq<UserId>, amounts: seq<int>)
    requires |ids| == |amounts| && NoDuplicates(ids)
    ensures CreditAll(users, ids, amounts).Keys == users.Keys
    ensures forall i :: 0 <= i < |ids| && ids[i] in users ==>
              CreditAll(users, ids, amounts)[ids[i]] == users[ids[i]].(points := users[ids[i]].points + amounts[i])
    ensures forall u :: u in users && u !in ids ==> CreditAll(users, ids, amounts)[u] == users[u]
  {
    if |ids| > 0 {
      var n := |ids| - 1;
      var ids', amounts' := ids[..n], amounts[..n];
      assert NoDuplicates(ids');
      CreditAllEffect(users, ids', amounts');
      var r := CreditAll(users, ids, amounts);
      var r' := CreditAll(users, ids', amounts');
      assert r == Credit(r', ids[n], amounts[n]);
      forall i | 0 <= i < |ids| && ids[i] in users
        ensures r[ids[i]] == users[ids[i]].(points := users[ids[i]].points + amounts[i])
      {
        if i < n {
          assert ids'[i] == ids[i] && amounts'[i] == amounts[i];
          assert ids[i] != ids[n];
        } else {
          assert ids[n] !in ids';
        }
      }
      forall u | u in users && u !in ids
        ensures r[u] == users[u]
      {
        assert u !in ids';
        assert u != ids[n];
      }
    }
  }

  /** Balance credits never change who exists, their codes or their referrers. */
  lemma {:induction false} CreditAllKeepsAccounts(users: map<UserId, User>, ids: seq<UserId>, amounts: seq<int>)
    requires |ids| == |amounts|
    ensures CreditAll(users, ids, amounts).Keys == users.Keys
    ensures forall u :: u in users ==>
              CreditAll(users, ids, amounts)[u].referralCode == users[u].referralCode &&
              CreditAll(users, ids, amounts)[u].referrer == users[u].referrer
  {
    if |ids| > 0 {
      CreditAllKeepsAccounts(users, ids[..|ids| - 1], amounts[..|amounts| - 1]);
    }
  }

  // ---------------------------------------------------------------------------------------
  // Referral codes

  function ReferralCodes(users: map<UserId, User>): (codes: set<string>)
  {
    set u | u in users :: users[u].referralCode
  }

  /** The users whose referral code is `code`. */
  function CodeHolders(users: map<UserId, User>, code: string): (holders: set<UserId>)
  {
    set u | u in users && users[u].referralCode == code
  }

  /** Two distinct users u and v do not share a referral code. */
  ghost predicate CodesDiffer(users: map<UserId, User>, u: UserId, v: UserId)
  {
    u in users && v in users && u != v ==> users[u].referralCode != users[v].referralCode
  }

  /** The uniqueness constraint on users.referral_code. */
  ghost predicate UniqueCodes(users: map<UserId, User>)
  {
    forall u, v {:trigger CodesDiffer(users, u, v)} :: CodesDiffer(users, u, v)
  }

  /** A code is held by some user exactly when it is among the used codes, and by one at most. */
  lemma CodeHoldersSpec(users: map<UserId, User>, code: string)
    requires UniqueCodes(users)
    ensures CodeHolders(users, code) != {} <==> code in ReferralCodes(users)
    ensures forall u, v :: u in CodeHolders(users, code) && v in CodeHolders(users, code) ==> u == v
  {
    if code in ReferralCodes(users) {
      var u :| u in users && users[u].referralCode == code;
      assert u in CodeHolders(users, code);
    }
    forall u, v | u in CodeHolders(users, code) && v in CodeHolders(users, code)
      ensures u == v
    {
      assert CodesDiffer(users, u, v);
    }
  }

  /** Adding a user with an unused code keeps the codes unique. */
  lemma AddUserKeepsCodesUnique(users: map<UserId, User>, uid: UserId, code: string)
    requires UniqueCodes(users) && uid !in users && code !in ReferralCodes(users)
    ensures UniqueCodes(users[uid := NewUser(code)])
    ensures ReferralCodes(users[uid := NewUser(code)]) == ReferralCodes(users) + {code}
  {
    var m := users[uid := NewUser(code)];
    forall u, v
      ensures CodesDiffer(m, u, v)
    {
      if u in m && v in m && u != v {
        if u == uid {
          assert users[v].referralCode in ReferralCodes(users);
        } else if v == uid {
          assert users[u].referralCode in ReferralCodes(users);
        } else {
          assert CodesDiffer(users, u, v);
        }
      }
    }
    forall c | c in ReferralCodes(m)
      ensures c in ReferralCodes(users) + {code}
    {
      var u :| u in m && m[u].referralCode == c;
      if u != uid {
        assert users[u].referralCode == c;
      }
    }
    forall c | c in ReferralCodes(users) + {code}
      ensures c in ReferralCodes(m)
    {
      if c == code {
        assert m[uid].referralCode == c;
      } else {
        var u :| u in users && users[u].referralCode == c;
        assert m[u].referralCode == c;
      }
    }
  }

  /**
   * The referrer to record, if any: referrals are enabled, the typed code is not empty and
   * belongs to a user (`holder`), that user is not the new user, the new user exists and has
   * no referrer yet.
   */
  function ReferralDecision(enabled: bool, code: string, holder: Option<UserId>, newUid: UserId,
                            current: Option<User>): (r: Option<UserId>)
    ensures r.Some? <==>
              enabled && code != "" && holder.Some? && holder.value != newUid &&
              current.Some? && current.value.referrer.None?
    ensures r.Some? ==> r == holder
  {
    if !enabled then None
    else if code == "" then None
    else if holder.None? then None
    else if holder.value == newUid then None
    else if current.None? || current.value.referrer.Some? then None
    else holder
  }

  /** First write wins: once a referrer is recorded, every later decision leaves it alone. */
  lemma ReferralSetOnce(enabled: bool, code: string, holder: Option<UserId>, newUid: UserId,
                        current: User, code2: string, holder2: Option<UserId>)
    requires ReferralDecision(enabled, code, holder, newUid, Some(current)).Some?
    ensures ReferralDecision(enabled, code2, holder2, newUid,
                             Some(current.(referrer := ReferralDecision(enabled, code, holder, newUid, Some(current))))) == None
  {
  }

  /** Nobody becomes their own referrer. */
  lemma NoSelfReferral(enabled: bool, code: string, uid: UserId, current: Option<User>)
    ensures ReferralDecision(enabled, code, Some(uid), uid, current) == None
  {
  }
}
