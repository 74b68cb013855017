/**
 * Textual tokens of the ledger: referral codes and ad-session nonces (random bytes written
 * in hexadecimal), the normalisation applied to codes a user types, and the retry loop that
 * draws referral codes until one is unused.
 */
module Codes {

  newtype byte = x: int | 0 <= x < 256

  /** Number of random bytes behind a referral code and behind a nonce. */
  const ReferralCodeBytes := 4
  const NonceBytes := 16

  /** The hexadecimal digit for a nibble, in upper or lower case. */
  function HexDigit(d: int, upper: bool): (c: char)
    requires 0 <= d < 16
    ensures IsHexDigit(c, upper)
  {
    if d < 10 then ('0' as int + d) as char
    else ((if upper then 'A' else 'a') as int + d - 10) as char
  }

  predicate IsHexDigit(c: char, upper: bool)
  {
    ('0' <= c <= '9') || (upper && 'A' <= c <= 'F') || (!upper && 'a' <= c <= 'f')
  }

  /** A byte string written as hexadecimal, two digits per byte, high nibble first. */
  function Hex(bs: seq<byte>, upper: bool): (r: string)
    ensures |r| == 2 * |bs|
    ensures forall i :: 0 <= i < |r| ==> IsHexDigit(r[i], upper)
  {
    if |bs| == 0 then []
    else [HexDigit(bs[0] as int / 16, upper), HexDigit(bs[0] as int % 16, upper)] + Hex(bs[1..], upper)
  }

  /** A referral code: four random bytes in upper-case hexadecimal. */
  function GenReferralCode(draw: seq<byte>): (code: string)
    requires |draw| == ReferralCodeBytes
    ensures |code| == 8
    ensures forall i :: 0 <= i < |code| ==> IsHexDigit(code[i], true)
  {
    Hex(draw, true)
  }

  /** An ad-session nonce: sixteen random bytes in lower-case hexadecimal. */
  function NonceOf(draw: seq<byte>): (nonce: string)
    requires |draw| == NonceBytes
    ensures |nonce| == 32
    ensures forall i :: 0 <= i < |nonce| ==> IsHexDigit(nonce[i], false)
  {
    Hex(draw, false)
  }

  /** Digits 2j and 2j+1 of the hexadecimal text are the nibbles of byte j. */
  lemma {:induction false} HexAt(bs: seq<byte>, upper: bool, j: int)
    requires 0 <= j < |bs|
    ensures Hex(bs, upper)[2 * j] == HexDigit(bs[j] as int / 16, upper)
    ensures Hex(bs, upper)[2 * j + 1] == HexDigit(bs[j] as int % 16, upper)
  {
    if j > 0 {
      HexAt(bs[1..], upper, j - 1);
    }
  }

  /** Distinct draws give distinct texts, so "the code is unused" is a fact about the draw. */
  lemma {:induction false} HexInjective(a: seq<byte>, b: seq<byte>, upper: bool)
    requires Hex(a, upper) == Hex(b, upper)
    ensures a == b
  {
    if |a| > 0 {
      var ha, hb := Hex(a, upper), Hex(b, upper);
      assert ha[0] == hb[0] && ha[1] == hb[1];
      assert a[0] as int / 16 == b[0] as int / 16;
      assert a[0] as int % 16 == b[0] as int % 16;
      assert a[0] == b[0];
      assert ha[2..] == Hex(a[1..], upper);
      assert hb[2..] == Hex(b[1..], upper);
      HexInjective(a[1..], b[1..], upper);
      assert a == [a[0]] + a[1..];
      assert b == [b[0]] + b[1..];
    }
  }

  // ---------------------------------------------------------------------------------------
  // Normalisation of a typed code: trim surrounding blanks, then upper-case (ASCII only).

  predicate IsSpace(c: char)
  {
    c == ' ' || c == '\t' || c == '\n' || c == '\r' || c as int == 11 || c as int == 12
  }

  /** The first position at or after i that is not a blank (|s| if there is none). */
  function SkipBlanks(s: string, i: nat): (n: nat)
    requires i <= |s|
    ensures i <= n <= |s| && (forall k :: i <= k < n ==> IsSpace(s[k])) && (n < |s| ==> !IsSpace(s[n]))
    decreases |s| - i
  {
    if i < |s| && IsSpace(s[i]) then SkipBlanks(s, i + 1) else i
  }

  /** The end of s[lo..j] once its trailing blanks are dropped. */
  function SkipTrailingBlanks(s: string, lo: nat, j: nat): (n: nat)
    requires lo <= j <= |s|
    ensures lo <= n <= j && (forall k :: n <= k < j ==> IsSpace(s[k])) && (n > lo ==> !IsSpace(s[n - 1]))
  {
    if j > lo && IsSpace(s[j - 1]) then SkipTrailingBlanks(s, lo, j - 1) else j
  }

  /** Every character of s outside s[i..j] is a blank. */
  predicate Blanks(s: string, i: int, j: int)
    requires 0 <= i <= j <= |s|
  {
    (forall k :: 0 <= k < i ==> IsSpace(s[k])) && (forall k :: j <= k < |s| ==> IsSpace(s[k]))
  }

  /**
   * Strips the blanks at both ends: the result is the text between the leading and the
   * trailing blanks, and it neither starts nor ends with one.
   */
  function Trim(s: string): (r: string)
    ensures |r| <= |s|
    ensures exists i, j :: 0 <= i <= j <= |s| && r == s[i..j] && Blanks(s, i, j)
    ensures |r| > 0 ==> !IsSpace(r[0]) && !IsSpace(r[|r| - 1])
  {
    var i := SkipBlanks(s, 0);
    var j := SkipTrailingBlanks(s, i, |s|);
    assert Blanks(s, i, j);
    s[i..j]
  }

  function UpperChar(c: char): (r: char)
    ensures !('a' <= r <= 'z')
    ensures IsSpace(r) <==> IsSpace(c)
  {
    if 'a' <= c <= 'z' then (c as int - 32) as char else c
  }

  function Upper(s: string): (r: string)
    ensures |r| == |s| && forall i :: 0 <= i < |s| ==> r[i] == UpperChar(s[i])
  {
    seq(|s|, i requires 0 <= i < |s| => UpperChar(s[i]))
  }

  /** A typed code as it is looked up: blanks trimmed, letters upper-cased. */
  function Normalize(s: string): (r: string)
    ensures |r| <= |s|
    ensures exists i, j :: 0 <= i <= j <= |s| && r == Upper(s[i..j]) && Blanks(s, i, j)
    ensures forall i :: 0 <= i < |r| ==> !('a' <= r[i] <= 'z')
    ensures |r| > 0 ==> !IsSpace(r[0]) && !IsSpace(r[|r| - 1])
  {
    Upper(Trim(s))
  }

  lemma UpperHexDigit(d: int, upper: bool)
    requires 0 <= d < 16
    ensures UpperChar(HexDigit(d, upper)) == HexDigit(d, true)
  {
  }

  /** Digit i of the upper-case text is digit i of the text in either case, upper-cased. */
  lemma UpperHexAt(bs: seq<byte>, upper: bool, i: int)
    requires 0 <= i < 2 * |bs|
    ensures UpperChar(Hex(bs, upper)[i]) == Hex(bs, true)[i]
  {
    var j := i / 2;
    HexAt(bs, upper, j);
    HexAt(bs, true, j);
    if i == 2 * j {
      UpperHexDigit(bs[j] as int / 16, upper);
    } else {
      assert i == 2 * j + 1;
      UpperHexDigit(bs[j] as int % 16, upper);
    }
  }

  /** A text that neither starts nor ends with a blank is left alone by trimming. */
  lemma TrimUnpadded(h: string)
    requires |h| > 0 ==> !IsSpace(h[0]) && !IsSpace(h[|h| - 1])
    ensures Trim(h) == h
  {
    assert SkipBlanks(h, 0) == 0;
    assert SkipTrailingBlanks(h, 0, |h|) == |h|;
    assert h[0..|h|] == h;
  }

  /** Upper-casing hex digits of either case gives the upper-case digits. */
  lemma UpperHex(bs: seq<byte>, upper: bool)
    ensures Upper(Hex(bs, upper)) == Hex(bs, true)
  {
    var h, u := Hex(bs, upper), Hex(bs, true);
    var r := Upper(h);
    forall i | 0 <= i < |h|
      ensures r[i] == u[i]
    {
      UpperHexAt(bs, upper, i);
    }
  }

  /** A code typed in either case normalises to the stored upper-case code. */
  lemma NormalizeHex(bs: seq<byte>, upper: bool)
    ensures Normalize(Hex(bs, upper)) == Hex(bs, true)
  {
    var h := Hex(bs, upper);
    assert |h| > 0 ==> !IsSpace(h[0]) && !IsSpace(h[|h| - 1]);
    TrimUnpadded(h);
    UpperHex(bs, upper);
  }

  // ---------------------------------------------------------------------------------------
  // The uniqueness loop of user creation.

  /**
   * Draws referral codes from the random source `draws` until one is not in `used`.
   * The result is the FIRST draw whose code is unused.
   */
  method PickReferralCode(used: set<string>, draws: seq<seq<byte>>) returns (code: string, k: nat)
    requires forall i :: 0 <= i < |draws| ==> |draws[i]| == ReferralCodeBytes
    requires exists i :: 0 <= i < |draws| && GenReferralCode(draws[i]) !in used
    ensures k < |draws| && code == GenReferralCode(draws[k])
    ensures code !in used
    ensures forall j :: 0 <= j < k ==> GenReferralCode(draws[j]) in used
  {
    k := 0;
    code := GenReferralCode(draws[0]);
    while code in used
      invariant k < |draws| && code == GenReferralCode(draws[k])
      invariant forall j :: 0 <= j < k ==> GenReferralCode(draws[j]) in used
      invariant exists i :: k <= i < |draws| && GenReferralCode(draws[i]) !in used
      decreases |draws| - k
    {
      k := k + 1;
      code := GenReferralCode(draws[k]);
    }
  }
}
