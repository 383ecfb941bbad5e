/**
 * Bytes, hexadecimal text and little-endian packing: the parts of Python's
 * binascii (hexlify, unhexlify), int(_, 16) and struct that the identity
 * codec uses.
 */
module Hex {
  import opened Wrappers
  import opened Text

  type Byte = b: int | 0 <= b < 256

  /** Lower-case digit for a nibble, as hexlify writes it. */
  function HexDigit(n: int): (c: char)
    requires 0 <= n < 16
    ensures IsLowerHexDigit(c)
  {
    if n < 10 then ('0' as int + n) as char else ('a' as int + n - 10) as char
  }

  predicate IsLowerHexDigit(c: char) {
    '0' <= c <= '9' || 'a' <= c <= 'f'
  }

  /** Value of one hexadecimal digit of either case, as unhexlify and int(_, 16) accept it. */
  function DigitValue(c: char): (r: Option<int>)
    ensures r.Some? ==> 0 <= r.value < 16
    ensures r.Some? <==> IsLowerHexDigit(c) || 'A' <= c <= 'F'
  {
    if '0' <= c <= '9' then Some(c as int - '0' as int)
    else if 'a' <= c <= 'f' then Some(c as int - 'a' as int + 10)
    else if 'A' <= c <= 'F' then Some(c as int - 'A' as int + 10)
    else None
  }

  lemma {:induction false} DigitValueOfHexDigit(n: int)
    requires 0 <= n < 16
    ensures DigitValue(HexDigit(n)) == Some(n)
  {
  }

  lemma {:induction false} HexDigitOfDigitValue(c: char)
    requires IsLowerHexDigit(c)
    ensures DigitValue(c).Some? && HexDigit(DigitValue(c).value) == c
  {
  }

  /** binascii.hexlify: two lower-case digits per byte, high nibble first. */
  function Hexlify(bs: seq<Byte>): (s: string)
    ensures |s| == 2 * |bs|
    ensures forall i :: 0 <= i < |s| ==> IsLowerHexDigit(s[i])
  {
    if bs == [] then "" else [HexDigit(bs[0] / 16), HexDigit(bs[0] % 16)] + Hexlify(bs[1..])
  }

  /** The two digits of byte i sit at positions 2i and 2i+1. */
  lemma {:induction false} HexlifyAt(bs: seq<Byte>, i: int)
    requires 0 <= i < |bs|
    ensures Hexlify(bs)[2 * i] == HexDigit(bs[i] / 16)
    ensures Hexlify(bs)[2 * i + 1] == HexDigit(bs[i] % 16)
  {
    if i > 0 {
      HexlifyAt(bs[1..], i - 1);
    }
  }

  lemma {:induction false} HexlifyConcat(a: seq<Byte>, b: seq<Byte>)
    ensures Hexlify(a + b) == Hexlify(a) + Hexlify(b)
  {
    if a != [] {
      assert (a + b)[0] == a[0] && (a + b)[1..] == a[1..] + b;
      HexlifyConcat(a[1..], b);
      var d := [HexDigit(a[0] / 16), HexDigit(a[0] % 16)];
      assert Hexlify(a + b) == d + Hexlify(a[1..] + b);
      assert Hexlify(a) == d + Hexlify(a[1..]);
    } else {
      assert a + b == b;
    }
  }

  /** binascii.unhexlify (and bytearray.fromhex): an even run of digits of either case. */
  function Unhexlify(s: string): (r: Option<seq<Byte>>)
    ensures r.Some? ==> 2 * |r.value| == |s|
  {
    if s == [] then Some([])
    else if |s| == 1 then None
    else
      match (DigitValue(s[0]), DigitValue(s[1]), Unhexlify(s[2..]))
      case (Some(hi), Some(lo), Some(rest)) => Some([hi * 16 + lo] + rest)
      case _ => None
  }

  /** Hexlified bytes decode back to the same bytes. */
  lemma {:induction false} UnhexlifyHexlify(bs: seq<Byte>)
    ensures Unhexlify(Hexlify(bs)) == Some(bs)
  {
    if bs != [] {
      var s := Hexlify(bs);
      assert s[2..] == Hexlify(bs[1..]);
      UnhexlifyHexlify(bs[1..]);
      DigitValueOfHexDigit(bs[0] / 16);
      DigitValueOfHexDigit(bs[0] % 16);
      assert (bs[0] / 16) * 16 + bs[0] % 16 == bs[0];
      assert [bs[0]] + bs[1..] == bs;
    }
  }

  /** Lower-case hex text that decodes is given back by hexlify. */
  lemma {:induction false} HexlifyUnhexlify(s: string)
    requires forall i :: 0 <= i < |s| ==> IsLowerHexDigit(s[i])
    requires Unhexlify(s).Some?
    ensures Hexlify(Unhexlify(s).value) == s
  {
    if s != [] {
      var hi, lo := DigitValue(s[0]).value, DigitValue(s[1]).value;
      HexlifyUnhexlify(s[2..]);
      HexDigitOfDigitValue(s[0]);
      HexDigitOfDigitValue(s[1]);
      assert (hi * 16 + lo) / 16 == hi && (hi * 16 + lo) % 16 == lo;
      assert s == [s[0], s[1]] + s[2..];
    }
  }

  /** Every even run of hex digits decodes. */
  lemma {:induction false} UnhexlifyDefined(s: string)
    requires |s| % 2 == 0
    requires forall i :: 0 <= i < |s| ==> IsLowerHexDigit(s[i])
    ensures Unhexlify(s).Some?
  {
    if s != [] {
      UnhexlifyDefined(s[2..]);
    }
  }

  function Pow16(k: nat): (r: nat)
    ensures r >= 1
  {
    if k == 0 then 1 else 16 * Pow16(k - 1)
  }

  function Pow256(k: nat): (r: nat)
    ensures r >= 1
  {
    if k == 0 then 1 else 256 * Pow256(k - 1)
  }

  lemma {:induction false} Pow256IsPow16(k: nat)
    ensures Pow256(k) == Pow16(2 * k)
  {
    if k > 0 {
      Pow256IsPow16(k - 1);
    }
  }

  /** int(s, 16) on a non-empty run of hex digits of either case. */
  function HexNumber(s: string): (r: Option<nat>)
    ensures r.Some? ==> r.value < Pow16(|s|)
    ensures r.Some? <==> s != [] && forall i :: 0 <= i < |s| ==> DigitValue(s[i]).Some?
  {
    if s == [] then None
    else
      var d := DigitValue(s[|s| - 1]);
      if |s| == 1 then (if d.Some? then Some(d.value) else None)
      else
        match (HexNumber(s[..|s| - 1]), d)
        case (Some(h), Some(lo)) => Some(h * 16 + lo)
        case _ => None
  }

  /** Unsigned big-endian value of a byte string. */
  function BeValue(bs: seq<Byte>): nat {
    if bs == [] then 0 else 256 * BeValue(bs[..|bs| - 1]) + bs[|bs| - 1]
  }

  /** Unsigned little-endian value of a byte string, as struct.unpack("<Q") reads eight bytes. */
  function LeValue(bs: seq<Byte>): (n: nat)
    ensures n < Pow256(|bs|)
  {
    if bs == [] then 0 else bs[0] + 256 * LeValue(bs[1..])
  }

  /** The k low-order bytes of n, least significant first, as struct.pack("<...") writes them. */
  function LeBytes(n: nat, k: nat): (bs: seq<Byte>)
    ensures |bs| == k
  {
    if k == 0 then [] else [n % 256] + LeBytes(n / 256, k - 1)
  }

  /** Packing then unpacking a value that fits is the identity. */
  lemma {:induction false} LeValueOfLeBytes(n: nat, k: nat)
    requires n < Pow256(k)
    ensures LeValue(LeBytes(n, k)) == n
  {
    if k > 0 {
      LeValueOfLeBytes(n / 256, k - 1);
    }
  }

  /** Unpacking then packing is the identity. */
  lemma {:induction false} LeBytesOfLeValue(bs: seq<Byte>)
    ensures LeBytes(LeValue(bs), |bs|) == bs
  {
    if bs != [] {
      var n := LeValue(bs);
      assert n % 256 == bs[0] && n / 256 == LeValue(bs[1..]);
      LeBytesOfLeValue(bs[1..]);
    }
  }

  /** Reading a little-endian field from the end is reading it big-endian. */
  lemma {:induction false} BeValueOfReverse(bs: seq<Byte>)
    ensures BeValue(Reverse(bs)) == LeValue(bs)
  {
    if bs != [] {
      var r := Reverse(bs);
      assert r[..|r| - 1] == Reverse(bs[1..]);
      BeValueOfReverse(bs[1..]);
    }
  }

  /** int(hexlify(bs), 16) is the big-endian value of bs. */
  lemma {:induction false} HexNumberOfHexlify(bs: seq<Byte>)
    requires bs != []
    ensures HexNumber(Hexlify(bs)) == Some(BeValue(bs))
  {
    var init, last := bs[..|bs| - 1], bs[|bs| - 1];
    assert bs == init + [last];
    HexlifyConcat(init, [last]);
    var s := Hexlify(bs);
    var hi, lo := HexDigit(last / 16), HexDigit(last % 16);
    assert s == Hexlify(init) + [hi, lo];
    DigitValueOfHexDigit(last / 16);
    DigitValueOfHexDigit(last % 16);
    assert s[..|s| - 1] == Hexlify(init) + [hi];
    if init == [] {
      assert s[..|s| - 1] == [hi];
    } else {
      HexNumberOfHexlify(init);
      var t := s[..|s| - 1];
      assert t[..|t| - 1] == Hexlify(init);
    }
  }

  /** The k low-order bytes of n, most significant first. */
  function BeBytes(n: nat, k: nat): (bs: seq<Byte>)
    ensures |bs| == k
  {
    if k == 0 then [] else BeBytes(n / 256, k - 1) + [n % 256]
  }

  lemma {:induction false} ReverseLeBytes(n: nat, k: nat)
    ensures Reverse(LeBytes(n, k)) == BeBytes(n, k)
  {
    if k > 0 {
      ReverseLeBytes(n / 256, k - 1);
    }
  }

  /** The w low-order hex digits of n, most significant first. */
  function HexFixed(n: nat, w: nat): (s: string)
    ensures |s| == w
  {
    if w == 0 then "" else HexFixed(n / 16, w - 1) + [HexDigit(n % 16)]
  }

  lemma {:induction false} HexlifyBeBytes(n: nat, k: nat)
    ensures Hexlify(BeBytes(n, k)) == HexFixed(n, 2 * k)
  {
    if k > 0 {
      var b := n % 256;
      HexlifyConcat(BeBytes(n / 256, k - 1), [b]);
      HexlifyBeBytes(n / 256, k - 1);
      var q, r := n / 256, n % 256;
      assert n == 16 * (16 * q + r / 16) + r % 16;
      assert n / 16 == 16 * q + r / 16 && n % 16 == r % 16;
      assert (n / 16) / 16 == q && (n / 16) % 16 == r / 16;
    }
  }

  /** Printing int(s, 16) back at the width of s gives s, for lower-case s. */
  lemma {:induction false} HexFixedOfHexNumber(s: string)
    requires s != [] && forall i :: 0 <= i < |s| ==> IsLowerHexDigit(s[i])
    ensures HexNumber(s).Some? && HexFixed(HexNumber(s).value, |s|) == s
  {
    var c := s[|s| - 1];
    HexDigitOfDigitValue(c);
    var d := DigitValue(c).value;
    if |s| == 1 {
      assert HexFixed(d, 1) == HexFixed(d / 16, 0) + [HexDigit(d % 16)];
    } else {
      var init := s[..|s| - 1];
      HexFixedOfHexNumber(init);
      var h := HexNumber(init).value;
      assert (h * 16 + d) / 16 == h && (h * 16 + d) % 16 == d;
      assert s == init + [c];
    }
  }
}
