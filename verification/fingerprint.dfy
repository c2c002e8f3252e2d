/**
 * `validate_fingerprint`: the command-line check of the backend's TLS
 * certificate fingerprint. Every colon is removed and the rest is read as
 * hexadecimal by `bytes.fromhex`; a string it cannot read is rejected with
 * click's `BadParameter`.
 */
module Fingerprint {
  import opened Wrappers
  import opened Ascii
  import opened Strings
  import opened Hex

  const BAD_FINGERPRINT := "must be hexadecimal string (with or without colons)"

  /** click's `BadParameter` exception, with its message. */
  datatype BadParameter = BadParameter(message: string)

  /** The fingerprint's bytes, or the error that rejects the option. */
  function ValidateFingerprint(fingerprint: string): (r: Result<seq<Byte>, BadParameter>)
    ensures r.Failure? ==> r.error == BadParameter(BAD_FINGERPRINT)
  {
    match FromHex(RemoveAll(fingerprint, ':'))
    case Some(digest) => Success(digest)
    case None => Failure(BadParameter(BAD_FINGERPRINT))
  }

  /** Hex pairs separated by colons, the way fingerprints are usually shown: `ab:cd:ef`. */
  function Colonised(bs: seq<Byte>): string
  {
    if |bs| <= 1 then ToHex(bs) else HexPair(bs[0]) + ":" + Colonised(bs[1..])
  }

  lemma {:induction false} RemoveColonsColonised(bs: seq<Byte>)
    ensures RemoveAll(Colonised(bs), ':') == ToHex(bs)
  {
    if |bs| <= 1 {
      RemoveAllAbsent(ToHex(bs), ':');
    } else {
      var pair, rest := HexPair(bs[0]), Colonised(bs[1..]);
      RemoveAllAppend(pair + ":", rest, ':');
      RemoveAllAppend(pair, ":", ':');
      RemoveAllAbsent(pair, ':');
      RemoveColonsColonised(bs[1..]);
    }
  }

  /** A fingerprint written as colon-separated hex pairs is accepted and gives back its bytes. */
  lemma ValidateColonised(bs: seq<Byte>)
    ensures ValidateFingerprint(Colonised(bs)) == Success(bs)
  {
    RemoveColonsColonised(bs);
    FromHexToHex(bs);
  }

  /** So is one written as bare hex digits. */
  lemma ValidateBareHex(bs: seq<Byte>)
    ensures ValidateFingerprint(ToHex(bs)) == Success(bs)
  {
    RemoveAllAbsent(ToHex(bs), ':');
    FromHexToHex(bs);
  }

  /** A colon anywhere changes nothing. */
  lemma ColonAnywhere(a: string, b: string)
    ensures ValidateFingerprint(a + ":" + b) == ValidateFingerprint(a + b)
  {
    assert RemoveAll(":", ':') == "" by {
      assert ":"[1..] == "";
    }
    calc {
      RemoveAll(a + ":" + b, ':');
      { RemoveAllAppend(a + ":", b, ':'); }
      RemoveAll(a + ":", ':') + RemoveAll(b, ':');
      { RemoveAllAppend(a, ":", ':'); }
      RemoveAll(a, ':') + RemoveAll(b, ':');
      { RemoveAllAppend(a, b, ':'); }
      RemoveAll(a + b, ':');
    }
  }

  /**
   * A fingerprint of hex digits and colons, in either case, is accepted
   * exactly when it has an even number of digits, and gives one byte per
   * pair of digits once the colons are gone.
   */
  lemma ValidateHexAndColons(fingerprint: string)
    requires forall k :: 0 <= k < |fingerprint| ==> IsHexDigit(fingerprint[k]) || fingerprint[k] == ':'
    ensures ValidateFingerprint(fingerprint).Success? <==> (|fingerprint| - multiset(fingerprint)[':']) % 2 == 0
    ensures ValidateFingerprint(fingerprint).Success? ==>
      |ValidateFingerprint(fingerprint).value| == (|fingerprint| - multiset(fingerprint)[':']) / 2
    ensures forall k :: 0 <= k < |RemoveAll(fingerprint, ':')| ==> IsHexDigit(RemoveAll(fingerprint, ':')[k])
    ensures ValidateFingerprint(fingerprint).Success? ==>
      2 * |ValidateFingerprint(fingerprint).value| == |RemoveAll(fingerprint, ':')|
    ensures ValidateFingerprint(fingerprint).Success? ==>
      var digits := RemoveAll(fingerprint, ':');
      forall k :: 0 <= k < |ValidateFingerprint(fingerprint).value| ==>
        ValidateFingerprint(fingerprint).value[k] == 16 * HexValue(digits[2 * k]) + HexValue(digits[2 * k + 1])
  {
    var digits := RemoveAll(fingerprint, ':');
    RemoveAllCounts(fingerprint, ':');
    forall k | 0 <= k < |digits| ensures IsHexDigit(digits[k]) {
      assert digits[k] in multiset(digits);
      assert digits[k] in multiset(fingerprint);
      var i :| 0 <= i < |fingerprint| && fingerprint[i] == digits[k];
    }
    FromHexDigits(digits);
  }

  /** A character other than a hex digit, a colon or whitespace makes the fingerprint invalid. */
  lemma ValidateRejects(fingerprint: string, k: nat)
    requires k < |fingerprint|
    requires !IsHexDigit(fingerprint[k]) && fingerprint[k] != ':' && !IsSpace(fingerprint[k])
    ensures ValidateFingerprint(fingerprint) == Failure(BadParameter(BAD_FINGERPRINT))
  {
    var digits := RemoveAll(fingerprint, ':');
    var c := fingerprint[k];
    RemoveAllCounts(fingerprint, ':');
    assert c in multiset(fingerprint);
    assert c in multiset(digits);
    var i :| 0 <= i < |digits| && digits[i] == c;
    FromHexRejects(digits, i);
  }
}
