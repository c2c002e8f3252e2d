/**
 * Bytes and Python's strict ASCII codec: `b.decode("ascii")` either gives one
 * character per byte or raises (any byte of 128 or more is an error; nothing
 * is replaced or dropped).
 */
module Ascii {
  import opened Wrappers

  type Byte = b: int | 0 <= b < 256

  predicate IsAscii(bs: seq<Byte>)
  {
    forall k :: 0 <= k < |bs| ==> bs[k] < 128
  }

  predicate IsAsciiText(s: string)
  {
    forall k :: 0 <= k < |s| ==> s[k] as int < 128
  }

  /** `bs.decode("ascii")`; `None` stands for the `UnicodeDecodeError` it raises. */
  function Decode(bs: seq<Byte>): (r: Option<string>)
    ensures r.Some? <==> IsAscii(bs)
    ensures r.Some? ==> |r.value| == |bs| && forall k :: 0 <= k < |bs| ==> r.value[k] as int == bs[k]
  {
    if IsAscii(bs) then Some(seq(|bs|, k requires 0 <= k < |bs| => bs[k] as char)) else None
  }

  /** `s.encode("ascii")` for text that is ASCII. */
  function Encode(s: string): (bs: seq<Byte>)
    requires IsAsciiText(s)
    ensures |bs| == |s| && forall k :: 0 <= k < |s| ==> bs[k] == s[k] as int
  {
    seq(|s|, k requires 0 <= k < |s| => s[k] as int)
  }

  lemma DecodeEncode(s: string)
    requires IsAsciiText(s)
    ensures Decode(Encode(s)) == Some(s)
  {
    var bs := Encode(s);
    assert IsAscii(bs);
    var t := Decode(bs).value;
    forall k | 0 <= k < |s| ensures t[k] == s[k] {
      assert t[k] == (s[k] as int) as char;
    }
    assert t == s;
  }

  lemma EncodeDecode(bs: seq<Byte>)
    requires IsAscii(bs)
    ensures IsAsciiText(Decode(bs).value) && Encode(Decode(bs).value) == bs
  {
  }

  /** Encoding keeps prefixes. */
  lemma EncodePrefix(p: string, s: string)
    requires IsAsciiText(s) && p <= s
    ensures IsAsciiText(p) && Encode(p) <= Encode(s)
  {
    assert forall k :: 0 <= k < |p| ==> p[k] == s[k];
  }

  /** Text decoded from bytes that start with the encoding of `p` starts with `p`. */
  lemma DecodedStartsWith(bs: seq<Byte>, p: string)
    requires IsAsciiText(p) && Encode(p) <= bs
    requires IsAscii(bs)
    ensures p <= Decode(bs).value
  {
    var t := Decode(bs).value;
    forall k | 0 <= k < |p| ensures t[k] == p[k] {
      assert t[k] as int == bs[k] == Encode(p)[k] == p[k] as int;
    }
  }

  /** Decoding commutes with dropping the first byte. */
  lemma DecodeTail(bs: seq<Byte>)
    requires |bs| >= 1 && bs[0] < 128
    ensures Decode(bs[1..]).Some? <==> Decode(bs).Some?
    ensures Decode(bs).Some? ==> Decode(bs).value == [bs[0] as char] + Decode(bs[1..]).value
  {
    if !IsAscii(bs) {
      var k :| 0 <= k < |bs| && bs[k] >= 128;
      assert bs[1..][k - 1] == bs[k];
    } else {
      var t, u := Decode(bs).value, Decode(bs[1..]).value;
      assert forall k :: 0 <= k < |u| ==> u[k] as int == t[k + 1] as int;
      assert t == [t[0]] + t[1..];
    }
  }
}
