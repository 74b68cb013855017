/**
 * Promo codes and their redemptions: a code grants a fixed number of points, at most
 * `maxUses` times in all and at most once per user.
 */
module Promos {
  import opened Results
  import opened Accounts

  datatype PromoCode = PromoCode(points: int, maxUses: int, uses: int, active: bool)

  datatype PromoError = PromoDisabled | InvalidCode | Exhausted | AlreadyRedeemed

  /** The row the redemption query finds: the code, when it exists and is active. */
  function ActivePromo(promoCodes: map<string, PromoCode>, code: string): (r: Option<PromoCode>)
    ensures r.Some? <==> code in promoCodes && promoCodes[code].active
    ensures r.Some? ==> r.value == promoCodes[code]
  {
    if code in promoCodes && promoCodes[code].active then Some(promoCodes[code]) else None
  }

  /** Why a redemption is refused, if it is, checked in this order. */
  function PromoRejection(enabled: bool, promo: Option<PromoCode>, redeemed: bool): (r: Option<PromoError>)
    ensures r == Some(PromoDisabled) <==> !enabled
    ensures r == Some(InvalidCode) <==> enabled && promo.None?
    ensures r == Some(Exhausted) <==> enabled && promo.Some? && promo.value.uses >= promo.value.maxUses
    ensures r == Some(AlreadyRedeemed) <==>
              enabled && promo.Some? && promo.value.uses < promo.value.maxUses && redeemed
    ensures r == None <==> enabled && promo.Some? && promo.value.uses < promo.value.maxUses && !redeemed
  {
    if !enabled then Some(PromoDisabled)
    else if promo.None? then Some(InvalidCode)
    else if promo.value.uses >= promo.value.maxUses then Some(Exhausted)
    else if redeemed then Some(AlreadyRedeemed)
    else None
  }

  /** The users that redeemed `code`. */
  function Redeemers(redemptions: set<(string, UserId)>, code: string): (who: set<UserId>)
  {
    set p | p in redemptions && p.0 == code :: p.1
  }

  /** The redemption x names an existing code. */
  ghost predicate RedemptionKnown(promoCodes: map<string, PromoCode>, x: (string, UserId))
  {
    x.0 in promoCodes
  }

  /** The uses of code c stay within 0..maxUses and count its distinct redeemers. */
  ghost predicate UsesCounted(promoCodes: map<string, PromoCode>, redemptions: set<(string, UserId)>, c: string)
  {
    c in promoCodes ==>
      0 <= promoCodes[c].uses <= promoCodes[c].maxUses && promoCodes[c].uses == |Redeemers(redemptions, c)|
  }

  /**
   * The promo tables agree: every redemption names an existing code, and each code's `uses`
   * counts its distinct redeemers and stays within 0..maxUses.
   */
  ghost predicate PromosValid(promoCodes: map<string, PromoCode>, redemptions: set<(string, UserId)>)
  {
    (forall x {:trigger RedemptionKnown(promoCodes, x)} :: x in redemptions ==> RedemptionKnown(promoCodes, x)) &&
    (forall c {:trigger UsesCounted(promoCodes, redemptions, c)} :: UsesCounted(promoCodes, redemptions, c))
  }

  /** Every code's use count stays within its cap. */
  lemma UsesWithinCap(promoCodes: map<string, PromoCode>, redemptions: set<(string, UserId)>)
    requires PromosValid(promoCodes, redemptions)
    ensures forall c :: c in promoCodes ==> 0 <= promoCodes[c].uses <= promoCodes[c].maxUses
  {
    forall c | c in promoCodes
      ensures 0 <= promoCodes[c].uses <= promoCodes[c].maxUses
    {
      assert UsesCounted(promoCodes, redemptions, c);
    }
  }

  lemma RedeemersAfterInsert(redemptions: set<(string, UserId)>, code: string, uid: UserId, c: string)
    requires (code, uid) !in redemptions
    ensures c == code ==> Redeemers(redemptions + {(code, uid)}, c) == Redeemers(redemptions, c) + {uid}
    ensures c == code ==> uid !in Redeemers(redemptions, c)
    ensures c != code ==> Redeemers(redemptions + {(code, uid)}, c) == Redeemers(redemptions, c)
  {
    var r := redemptions + {(code, uid)};
    if c == code {
      assert (code, uid) in r;
      assert uid in Redeemers(r, c);
      forall x | x in Redeemers(redemptions, c) ensures x != uid {
        var p :| p in redemptions && p.0 == c && p.1 == x;
        assert p == (code, x);
      }
    }
  }

  /**
   * A redemption the gate accepts keeps the tables consistent: the usage count stays within
   * the cap, and it still counts distinct redeemers, so no user redeems a code twice.
   */
  lemma RedeemKeepsPromosValid(promoCodes: map<string, PromoCode>, redemptions: set<(string, UserId)>,
                               code: string, uid: UserId)
    requires PromosValid(promoCodes, redemptions)
    requires PromoRejection(true, ActivePromo(promoCodes, code), (code, uid) in redemptions) == None
    ensures PromosValid(promoCodes[code := promoCodes[code].(uses := promoCodes[code].uses + 1)],
                        redemptions + {(code, uid)})
  {
    var p' := promoCodes[code := promoCodes[code].(uses := promoCodes[code].uses + 1)];
    var r' := redemptions + {(code, uid)};
    forall x | x in r'
      ensures RedemptionKnown(p', x)
    {
      if x != (code, uid) {
        assert RedemptionKnown(promoCodes, x);
      }
    }
    forall c
      ensures UsesCounted(p', r', c)
    {
      assert UsesCounted(promoCodes, redemptions, c);
      RedeemersAfterInsert(redemptions, code, uid, c);
    }
  }
}
