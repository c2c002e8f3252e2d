/**
 * Python's `bytes.fromhex(s)` and its inverse `bytes.hex()`. `fromhex` reads
 * the string as pairs of hexadecimal digits (either case), one byte per pair,
 * and skips ASCII whitespace before a pair but not inside one; anything else,
 * and a digit left without its partner, raises `ValueError`.
 */
module Hex {
  import opened Wrappers
  import opened Ascii

  predicate IsHexDigit(c: char)
  {
    '0' <= c <= '9' || 'a' <= c <= 'f' || 'A' <= c <= 'F'
  }

  /** The characters CPython's `Py_ISSPACE` accepts: space, tab, LF, VT, FF, CR. */
  predicate IsSpace(c: char)
  {
    c == ' ' || c == '\t' || c == '\n' || c == '\r' || c as int == 0x0B || c as int == 0x0C
  }

  function HexValue(c: char): (v: nat)
    requires IsHexDigit(c)
    ensures v < 16
  {
    if '0' <= c <= '9' then c as int - '0' as int
    else if 'a' <= c <= 'f' then c as int - 'a' as int + 10
    else c as int - 'A' as int + 10
  }

  function HexDigit(v: nat): (c: char)
    requires v < 16
    ensures IsHexDigit(c) && HexValue(c) == v
  {
    if v < 10 then ('0' as int + v) as char else ('a' as int + v - 10) as char
  }

  /** `bytes.fromhex(s)`; `None` stands for the `ValueError` it raises. */
  function FromHex(s: string): (r: Option<seq<Byte>>)
    ensures r.Some? ==> 2 * |r.value| <= |s|
    decreases |s|
  {
    if |s| == 0 then Some([])
    else if IsSpace(s[0]) then FromHex(s[1..])
    else if |s| < 2 || !IsHexDigit(s[0]) || !IsHexDigit(s[1]) then None
    else
      match FromHex(s[2..])
      case None => None
      case Some(rest) => Some([16 * HexValue(s[0]) + HexValue(s[1])] + rest)
  }

  /** The two lower-case hex digits of one byte. */
  function HexPair(b: Byte): (s: string)
    ensures |s| == 2 && IsHexDigit(s[0]) && IsHexDigit(s[1])
    ensures 16 * HexValue(s[0]) + HexValue(s[1]) == b
  {
    [HexDigit(b / 16), HexDigit(b % 16)]
  }

  /** `bs.hex()`: two hex digits per byte, no separators. */
  function ToHex(bs: seq<Byte>): (s: string)
    ensures |s| == 2 * |bs|
    ensures forall k :: 0 <= k < |s| ==> IsHexDigit(s[k])
  {
    if |bs| == 0 then "" else HexPair(bs[0]) + ToHex(bs[1..])
  }

  /** `bytes.fromhex(bs.hex()) == bs`. */
  lemma {:induction false} FromHexToHex(bs: seq<Byte>)
    ensures FromHex(ToHex(bs)) == Some(bs)
  {
    if |bs| > 0 {
      var s, pair := ToHex(bs), HexPair(bs[0]);
      assert s == pair + ToHex(bs[1..]);
      assert s[0] == pair[0] && s[1] == pair[1] && s[2..] == ToHex(bs[1..]);
      assert !IsSpace(s[0]);
      FromHexToHex(bs[1..]);
      assert FromHex(s) == Some([16 * HexValue(pair[0]) + HexValue(pair[1])] + bs[1..]);
      assert bs == [bs[0]] + bs[1..];
    }
  }

  /**
   * A string of hex digits alone decodes exactly when it has an even number
   * of digits, to half as many bytes, byte `k` being the value of digits
   * `2k` and `2k+1`.
   */
  lemma {:induction false} FromHexDigits(s: string)
    requires forall k :: 0 <= k < |s| ==> IsHexDigit(s[k])
    ensures FromHex(s).Some? <==> |s| % 2 == 0
    ensures FromHex(s).Some? ==> |FromHex(s).value| == |s| / 2
    ensures FromHex(s).Some? ==> forall k :: 0 <= k < |s| / 2 ==>
      FromHex(s).value[k] == 16 * HexValue(s[2 * k]) + HexValue(s[2 * k + 1])
  {
    if |s| >= 2 {
      assert !IsSpace(s[0]);
      FromHexDigits(s[2..]);
      if FromHex(s).Some? {
        var r := FromHex(s).value;
        forall k | 1 <= k < |s| / 2
          ensures r[k] == 16 * HexValue(s[2 * k]) + HexValue(s[2 * k + 1])
        {
          assert r[k] == FromHex(s[2..]).value[k - 1];
          assert s[2..][2 * (k - 1)] == s[2 * k];
          assert s[2..][2 * (k - 1) + 1] == s[2 * k + 1];
        }
      }
    } else if |s| == 1 {
      assert !IsSpace(s[0]);
    }
  }

  /** A character that is neither a hex digit nor whitespace makes `fromhex` raise. */
  lemma {:induction false} FromHexRejects(s: string, k: nat)
    requires k < |s| && !IsHexDigit(s[k]) && !IsSpace(s[k])
    ensures FromHex(s) == None
  {
    if k == 0 {
    } else if IsSpace(s[0]) {
      FromHexRejects(s[1..], k - 1);
    } else if |s| >= 2 && IsHexDigit(s[0]) && IsHexDigit(s[1]) {
      FromHexRejects(s[2..], k - 2);
    }
  }
}
