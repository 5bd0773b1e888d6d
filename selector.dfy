/**
 * Function selectors (`get_func_sig`): the first four bytes of the Keccak-256
 * digest of a canonical signature string, written as eight lower-case hex
 * digits. The hash itself is a foreign function and is not modelled: every
 * operation that needs it takes it as the parameter `keccak`, about which
 * nothing is assumed beyond its digest length.
 */
module Selector {
  import opened Wrappers
  import opened Words

  type Digest = d: seq<Byte> | |d| == 32 witness seq(32, _ => 0)

  /** Keccak-256 of the signature's bytes. */
  type Keccak = string -> Digest

  /** The characters `{:02x}` writes: `0`-`9` and `a`-`f`. */
  predicate IsLowerHex(c: char)
  {
    '0' <= c <= '9' || 'a' <= c <= 'f'
  }

  function HexDigit(n: nat): (c: char)
    requires n < 16
    ensures IsLowerHex(c)
  {
    if n < 10 then ('0' as int + n) as char else ('a' as int + n - 10) as char
  }

  /** Value of a lower-case hex digit, `None` for any other character. */
  function DigitValue(c: char): (r: Option<nat>)
    ensures r.Some? <==> IsLowerHex(c)
    ensures r.Some? ==> r.value < 16 && HexDigit(r.value) == c
  {
    if '0' <= c <= '9' then Some(c as nat - '0' as nat)
    else if 'a' <= c <= 'f' then Some(c as nat - 'a' as nat + 10)
    else None
  }

  /** `format!("{:02x}", b)` for every byte, concatenated. */
  function HexEncode(bytes: seq<Byte>): (s: string)
    ensures |s| == 2 * |bytes|
    ensures forall i :: 0 <= i < |s| ==> IsLowerHex(s[i])
  {
    if bytes == [] then ""
    else [HexDigit(bytes[0] / 16), HexDigit(bytes[0] % 16)] + HexEncode(bytes[1..])
  }

  /** Inverse of `HexEncode`: pairs of lower-case hex digits back to bytes. */
  function HexDecode(s: string): Option<seq<Byte>>
    decreases |s|
  {
    if s == [] then Some([])
    else if |s| == 1 then None
    else
      match (DigitValue(s[0]), DigitValue(s[1]), HexDecode(s[2..]))
      case (Some(hi), Some(lo), Some(rest)) => Some([hi * 16 + lo] + rest)
      case _ => None
  }

  lemma ByteDigits(b: Byte)
    ensures b / 16 < 16 && b % 16 < 16 && (b / 16) * 16 + b % 16 == b
  {
  }

  lemma {:induction false} HexRoundTrip(bytes: seq<Byte>)
    ensures HexDecode(HexEncode(bytes)) == Some(bytes)
  {
    if bytes != [] {
      var b := bytes[0];
      var s := HexEncode(bytes);
      ByteDigits(b);
      assert DigitValue(s[0]) == Some(b / 16);
      assert DigitValue(s[1]) == Some(b % 16);
      assert s[2..] == HexEncode(bytes[1..]);
      HexRoundTrip(bytes[1..]);
      assert [b] + bytes[1..] == bytes;
    }
  }

  /** `get_func_sig`: hex of the first four digest bytes. */
  function GetFuncSig(keccak: Keccak, signature: string): string
  {
    HexEncode(keccak(signature)[..4])
  }

  /** A selector is exactly eight lower-case hex digits. */
  lemma SelectorShape(keccak: Keccak, signature: string)
    ensures |GetFuncSig(keccak, signature)| == 8
    ensures forall i :: 0 <= i < 8 ==> IsLowerHex(GetFuncSig(keccak, signature)[i])
  {
  }

  /**
   * Two signatures share a selector exactly when their digests agree on the
   * first four bytes; distinct signatures may collide, and nothing here rules it out.
   */
  lemma SelectorsEqualIff(keccak: Keccak, s1: string, s2: string)
    ensures GetFuncSig(keccak, s1) == GetFuncSig(keccak, s2) <==> keccak(s1)[..4] == keccak(s2)[..4]
  {
    if GetFuncSig(keccak, s1) == GetFuncSig(keccak, s2) {
      HexRoundTrip(keccak(s1)[..4]);
      HexRoundTrip(keccak(s2)[..4]);
    }
  }
}
