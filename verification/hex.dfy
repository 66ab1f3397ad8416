/**
 * Byte strings, their hex text form, and the 20-byte account address and 32-byte
 * transaction hash of the ledger. Address parsing follows go-ethereum's
 * common.IsHexAddress / common.HexToAddress; Address.Hex() and Hash.Hex() are
 * modelled as lowercase "0x"-prefixed hex (the EIP-55 mixed-case checksum of
 * Address.Hex() is not modelled; it is injective either way).
 */
module Hex {

  type Byte = x: int | 0 <= x < 256

  const AddressLength: nat := 20
  const HashLength: nat := 32

  type Address = a: seq<Byte> | |a| == AddressLength witness seq(AddressLength, _ => 0)
  type Hash = h: seq<Byte> | |h| == HashLength witness seq(HashLength, _ => 0)

  predicate IsHexChar(c: char) { '0' <= c <= '9' || 'a' <= c <= 'f' || 'A' <= c <= 'F' }

  predicate AllHex(s: string) { forall i :: 0 <= i < |s| ==> IsHexChar(s[i]) }

  function NibbleValue(c: char): (v: nat)
    requires IsHexChar(c)
    ensures v < 16
  {
    if '0' <= c <= '9' then (c as int) - ('0' as int)
    else if 'a' <= c <= 'f' then (c as int) - ('a' as int) + 10
    else (c as int) - ('A' as int) + 10
  }

  /** Lowercase hex digit. */
  function NibbleChar(v: nat): (c: char)
    requires v < 16
    ensures IsHexChar(c) && NibbleValue(c) == v
  {
    if v < 10 then (('0' as int) + v) as char else (('a' as int) + v - 10) as char
  }

  /** Two lowercase hex digits per byte, most significant nibble first. */
  function Encode(b: seq<Byte>): (s: string)
    ensures |s| == 2 * |b|
  {
    if b == [] then [] else [NibbleChar(b[0] / 16), NibbleChar(b[0] % 16)] + Encode(b[1..])
  }

  lemma {:induction false} EncodeIsHex(b: seq<Byte>)
    ensures AllHex(Encode(b))
  {
    if b != [] {
      EncodeIsHex(b[1..]);
      var s := Encode(b);
      assert s[2..] == Encode(b[1..]);
      forall i | 0 <= i < |s| ensures IsHexChar(s[i]) {
        if i >= 2 { assert s[i] == s[2..][i - 2]; }
      }
    }
  }

  /** Hex text of even length back to bytes (upper- or lowercase digits). */
  function Decode(s: string): (b: seq<Byte>)
    requires |s| % 2 == 0 && AllHex(s)
    ensures |b| == |s| / 2
  {
    if s == [] then []
    else
      assert IsHexChar(s[0]) && IsHexChar(s[1]);
      assert AllHex(s[2..]) by { forall i | 0 <= i < |s| - 2 ensures IsHexChar(s[2..][i]) { assert s[2..][i] == s[i + 2]; } }
      [NibbleValue(s[0]) * 16 + NibbleValue(s[1])] + Decode(s[2..])
  }

  lemma {:induction false} DecodeEncode(b: seq<Byte>)
    ensures AllHex(Encode(b)) && Decode(Encode(b)) == b
  {
    EncodeIsHex(b);
    if b != [] {
      var s := Encode(b);
      assert s[2..] == Encode(b[1..]);
      DecodeEncode(b[1..]);
    }
  }

  predicate Has0xPrefix(s: string) { |s| >= 2 && s[0] == '0' && (s[1] == 'x' || s[1] == 'X') }

  function StripPrefix(s: string): string { if Has0xPrefix(s) then s[2..] else s }

  /** common.IsHexAddress: an optional 0x/0X prefix, then exactly 40 hex digits. */
  predicate IsHexAddress(s: string) {
    var body := StripPrefix(s);
    |body| == 2 * AddressLength && AllHex(body)
  }

  /** A hex digit in lowercase. */
  function LowerHexChar(c: char): (l: char)
    requires IsHexChar(c)
    ensures IsHexChar(l) && !('A' <= l <= 'F') && NibbleValue(l) == NibbleValue(c)
  {
    if 'A' <= c <= 'F' then ((c as int) - ('A' as int) + ('a' as int)) as char else c
  }

  /** Hex text with every digit in lowercase. */
  function LowerHex(s: string): (l: string)
    requires AllHex(s)
    ensures |l| == |s|
  {
    seq(|s|, i requires 0 <= i < |s| => LowerHexChar(s[i]))
  }

  /** Encoding decoded hex text gives the same text in lowercase. */
  lemma {:induction false} EncodeDecode(s: string)
    requires |s| % 2 == 0 && AllHex(s)
    ensures Encode(Decode(s)) == LowerHex(s)
    decreases |s|
  {
    if s != [] {
      var t := s[2..];
      assert AllHex(t) by { forall i | 0 <= i < |t| ensures IsHexChar(t[i]) { assert t[i] == s[i + 2]; } }
      var v0, v1 := NibbleValue(s[0]), NibbleValue(s[1]);
      var b := Decode(s);
      assert b[0] == v0 * 16 + v1 && b[1..] == Decode(t);
      assert b[0] / 16 == v0 && b[0] % 16 == v1;
      assert NibbleChar(v0) == LowerHexChar(s[0]);
      assert NibbleChar(v1) == LowerHexChar(s[1]);
      EncodeDecode(t);
      assert LowerHex(s) == [LowerHexChar(s[0]), LowerHexChar(s[1])] + LowerHex(t);
    }
  }

  /** common.HexToAddress on text IsHexAddress accepts: the address whose text form is the
      given digits in lowercase, whatever their case and whatever the prefix. */
  function HexToAddress(s: string): (a: Address)
    requires IsHexAddress(s)
    ensures AddressHex(a) == "0x" + LowerHex(StripPrefix(s))
  {
    EncodeDecode(StripPrefix(s));
    Decode(StripPrefix(s))
  }

  /** Address.Hex(): "0x" and 40 lowercase hex digits. */
  function AddressHex(a: Address): (s: string)
    ensures |s| == 2 + 2 * AddressLength && s[..2] == "0x"
    ensures AllHex(s[2..])
  {
    EncodeIsHex(a);
    assert ("0x" + Encode(a))[2..] == Encode(a);
    "0x" + Encode(a)
  }

  /** Hash.Hex(): "0x" and 64 lowercase hex digits. */
  function HashHex(h: Hash): (s: string)
    ensures |s| == 2 + 2 * HashLength && s[..2] == "0x"
    ensures AllHex(s[2..])
  {
    EncodeIsHex(h);
    assert ("0x" + Encode(h))[2..] == Encode(h);
    "0x" + Encode(h)
  }

  /** The prefix is optional: 40 hex digits are an address with or without "0x" or "0X"
      in front, and read as the same address either way. */
  lemma HexAddressPrefixOptional(body: string)
    requires !Has0xPrefix(body)
    ensures IsHexAddress(body) <==> IsHexAddress("0x" + body)
    ensures IsHexAddress(body) <==> IsHexAddress("0X" + body)
    ensures IsHexAddress(body) ==>
      HexToAddress(body) == HexToAddress("0x" + body) && HexToAddress(body) == HexToAddress("0X" + body)
  {
    assert StripPrefix("0x" + body) == body;
    assert StripPrefix("0X" + body) == body;
  }

  /** Two address texts name the same address exactly when their digits agree up to case. */
  lemma HexToAddressIgnoresCase(s: string, t: string)
    requires IsHexAddress(s) && IsHexAddress(t)
    ensures HexToAddress(s) == HexToAddress(t) <==> LowerHex(StripPrefix(s)) == LowerHex(StripPrefix(t))
  {
    var ls, lt := LowerHex(StripPrefix(s)), LowerHex(StripPrefix(t));
    if HexToAddress(s) == HexToAddress(t) {
      assert ls == ("0x" + ls)[2..] && lt == ("0x" + lt)[2..];
    } else {
      AddressHexInjective(HexToAddress(s), HexToAddress(t));
    }
  }

  /** The text form of an address is one IsHexAddress accepts and HexToAddress reads back. */
  lemma AddressHexRoundTrip(a: Address)
    ensures IsHexAddress(AddressHex(a)) && HexToAddress(AddressHex(a)) == a
  {
    assert StripPrefix(AddressHex(a)) == Encode(a);
    DecodeEncode(a);
  }

  /** Comparing the text forms of two addresses is comparing the addresses. */
  lemma AddressHexInjective(a: Address, b: Address)
    ensures AddressHex(a) == AddressHex(b) <==> a == b
  {
    if AddressHex(a) == AddressHex(b) {
      AddressHexRoundTrip(a);
      AddressHexRoundTrip(b);
    }
  }

  /** Comparing transaction IDs (hash text) is comparing hashes. */
  lemma HashHexInjective(g: Hash, h: Hash)
    ensures HashHex(g) == HashHex(h) <==> g == h
  {
    if HashHex(g) == HashHex(h) {
      assert HashHex(g)[2..] == Encode(g) && HashHex(h)[2..] == Encode(h);
      DecodeEncode(g);
      DecodeEncode(h);
    }
  }
}
