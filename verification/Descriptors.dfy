/** Memory-map descriptors as the bytes the firmware hands over (bootloader/boot.h:51-59). */
module Descriptors {
  import opened Words

  const NORMAL_MEM: nat := 7

  /** The fields the boot loader reads. */
  datatype Descriptor = Descriptor(memType: nat, physaddr: nat, pages: nat) {
    /** The type has 32 bits, the others 64. */
    predicate Sane() {
      memType < Pow2(32) && physaddr < Pow2(64) && pages < Pow2(64)
    }
  }

  // ----- numbers, least significant byte first -----

  function Number(b: seq<byte>): nat {
    if b == [] then 0 else b[0] + 0x100 * Number(b[1..])
  }

  function Digits(x: nat, k: nat): (b: seq<byte>)
    ensures |b| == k
  {
    if k == 0 then [] else [x % 0x100] + Digits(x / 0x100, k - 1)
  }

  lemma {:induction false} NumberOfDigits(x: nat, k: nat)
    requires x < Pow2(8 * k)
    ensures Number(Digits(x, k)) == x
  {
    if k > 0 {
      EightBits(8 * (k - 1));
      NumberOfDigits(x / 0x100, k - 1);
    }
  }

  lemma EightBits(n: nat)
    ensures Pow2(n + 8) == 0x100 * Pow2(n)
  {
    assert Pow2(n + 2) == 4 * Pow2(n);
    assert Pow2(n + 4) == 4 * Pow2(n + 2);
    assert Pow2(n + 6) == 4 * Pow2(n + 4);
    assert Pow2(n + 8) == 4 * Pow2(n + 6);
  }

  // ----- descriptors of 40 bytes -----

  function Parse(d: seq<byte>): Descriptor
    requires |d| == 40
  {
    Descriptor(Number(d[0..4]), Number(d[8..16]), Number(d[24..32]))
  }

  /** Where the fields are: the type in the first 4 bytes, the address in 8 bytes from byte 8 on, the number
      of pages in 8 bytes from byte 24 on. */
  lemma ParseFields(d: seq<byte>, e: seq<byte>)
    requires |d| == 40 == |e|
    ensures (forall k :: 0 <= k < 4 ==> d[k] == e[k]) <==> Parse(d).memType == Parse(e).memType
    ensures (forall k :: 8 <= k < 16 ==> d[k] == e[k]) <==> Parse(d).physaddr == Parse(e).physaddr
    ensures (forall k :: 24 <= k < 32 ==> d[k] == e[k]) <==> Parse(d).pages == Parse(e).pages
  {
    SameNumber(d[0..4], e[0..4]);
    SameNumber(d[8..16], e[8..16]);
    SameNumber(d[24..32], e[24..32]);
    SamePart(d, e, 0, 4);
    SamePart(d, e, 8, 16);
    SamePart(d, e, 24, 32);
    hide Number;
  }

  lemma SamePart(d: seq<byte>, e: seq<byte>, a: nat, b: nat)
    requires a <= b <= |d| && b <= |e|
    ensures d[a..b] == e[a..b] <==> forall k :: a <= k < b ==> d[k] == e[k]
  {
    if d[a..b] == e[a..b] {
      forall k | a <= k < b ensures d[k] == e[k] {
        assert d[k] == d[a..b][k - a];
        assert e[k] == e[a..b][k - a];
      }
    }
  }

  /** Numbers of as many bytes are equal only if their bytes are. */
  lemma {:induction false} SameNumber(a: seq<byte>, b: seq<byte>)
    requires |a| == |b|
    ensures Number(a) == Number(b) <==> a == b
  {
    if a != [] {
      SameNumber(a[1..], b[1..]);
      assert a == [a[0]] + a[1..] && b == [b[0]] + b[1..];
    }
  }

  /** The first n entries of a buffer, read at 40-byte steps. */
  function Parsed(buf: seq<byte>, n: nat): (mm: seq<Descriptor>)
    requires 40 * n <= |buf|
    ensures |mm| == n
  {
    seq(n, i requires 0 <= i < n => Parse(buf[40 * i..40 * i + 40]))
  }

  function Encode(d: Descriptor): (b: seq<byte>)
    ensures |b| == 40
  {
    Digits(d.memType, 4) + Digits(0, 4) + Digits(d.physaddr, 8) + Digits(0, 8) + Digits(d.pages, 8) + Digits(0, 8)
  }

  function EncodeAll(mm: seq<Descriptor>): (b: seq<byte>)
    ensures |b| == 40 * |mm|
  {
    if mm == [] then [] else EncodeAll(mm[..|mm| - 1]) + Encode(mm[|mm| - 1])
  }

  lemma ParseEncode(d: Descriptor)
    requires d.Sane()
    ensures Parse(Encode(d)) == d
  {
    hide Pow2, Digits, Number;
    NumberOfDigits(d.memType, 4);
    NumberOfDigits(d.physaddr, 8);
    NumberOfDigits(d.pages, 8);
    var b := Encode(d);
    assert b[0..4] == Digits(d.memType, 4);
    assert b[8..16] == Digits(d.physaddr, 8);
    assert b[24..32] == Digits(d.pages, 8);
  }

  lemma {:induction false} EncodedAt(mm: seq<Descriptor>, i: nat)
    requires i < |mm|
    ensures EncodeAll(mm)[40 * i..40 * i + 40] == Encode(mm[i])
  {
    hide Encode;
    var k := |mm| - 1;
    if i < k {
      EncodedAt(mm[..k], i);
      assert EncodeAll(mm)[40 * i..40 * i + 40] == EncodeAll(mm[..k])[40 * i..40 * i + 40];
    }
  }

  lemma ParsedAt(buf: seq<byte>, n: nat, i: nat)
    requires 40 * n <= |buf| && i < n
    ensures Parsed(buf, n)[i] == Parse(buf[40 * i..40 * i + 40])
  {
    hide Parse;
  }

  /** Reading back the bytes of descriptors. */
  lemma ParsedEncoded(mm: seq<Descriptor>)
    requires forall i :: 0 <= i < |mm| ==> mm[i].Sane()
    ensures Parsed(EncodeAll(mm), |mm|) == mm
  {
    hide Encode, EncodeAll, Parse, Parsed, Descriptor.Sane;
    forall i | 0 <= i < |mm| ensures Parsed(EncodeAll(mm), |mm|)[i] == mm[i] {
      ParsedAt(EncodeAll(mm), |mm|, i);
      EncodedAt(mm, i);
      ParseEncode(mm[i]);
    }
  }

  // ----- a map read over another -----

  /** The buffer after a map is read into it. A map that does not fit is refused, and the buffer stays
      (section 7.2, GetMemoryMap, of the UEFI specification). */
  function Overwritten(buf: seq<byte>, second: seq<byte>): (r: seq<byte>)
    ensures |r| == |buf|
  {
    if |second| <= |buf| then second + buf[|second|..] else buf
  }

  /** A shorter map of 40-byte descriptors is followed by what is left of the one before. */
  lemma ParsedAgain(buf: seq<byte>, second: seq<byte>, m: nat, n: nat)
    requires |second| == 40 * m && m <= n && 40 * n <= |buf|
    ensures Parsed(Overwritten(buf, second), n) == Parsed(second, m) + Parsed(buf, n)[m..]
  {
    hide Parse;
    var after := Overwritten(buf, second);
    forall i | 0 <= i < n ensures Parsed(after, n)[i] == (Parsed(second, m) + Parsed(buf, n)[m..])[i] {
      if i < m {
        FrontPart(second, buf[40 * m..], 40 * i);
      } else {
        BackPart(second, buf, 40 * i);
      }
    }
  }

  lemma FrontPart(a: seq<byte>, b: seq<byte>, at: nat)
    requires at + 40 <= |a|
    ensures (a + b)[at..at + 40] == a[at..at + 40]
  {}

  lemma BackPart(a: seq<byte>, b: seq<byte>, at: nat)
    requires |a| <= at && at + 40 <= |b|
    ensures (a + b[|a|..])[at..at + 40] == b[at..at + 40]
  {}
}
