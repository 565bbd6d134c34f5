/** Texts are sequences of Unicode scalar values. */
module CodePoints {
  import opened Utf8
  import opened Utf16

  predicate IsValue(cp: nat) {
    cp < 0xD800 || 0xE000 <= cp <= 0x10FFFF
  }

  /** Section 3 of RFC 3629. */
  function Encode(cp: nat): str
    requires IsValue(cp)
  {
    if cp < 0x80 then [cp as byte]
    else if cp < 0x800 then [(0xC0 + cp / 64) as byte, (0x80 + cp % 64) as byte]
    else if cp < 0x10000 then
      [(0xE0 + cp / 4096) as byte, (0x80 + cp / 64 % 64) as byte, (0x80 + cp % 64) as byte]
    else
      [(0xF0 + cp / 262144) as byte, (0x80 + cp / 4096 % 64) as byte, (0x80 + cp / 64 % 64) as byte,
       (0x80 + cp % 64) as byte]
  }

  function EncodeAll(cps: seq<nat>): str
    requires AllValues(cps)
  {
    if cps == [] then [] else Encode(cps[0]) + EncodeAll(cps[1..])
  }

  predicate AllValues(cps: seq<nat>) {
    forall k :: 0 <= k < |cps| ==> IsValue(cps[k])
  }

  /** Code units of UTF-16. */
  function UnitsOf(cps: seq<nat>): nat {
    if cps == [] then 0 else (if cps[0] < 0x10000 then 1 else 2) + UnitsOf(cps[1..])
  }

  lemma EncodeIsScalar(cp: nat)
    requires IsValue(cp)
    ensures IsScalar(Encode(cp)) && ScalarUnits(|Encode(cp)|) == if cp < 0x10000 then 1 else 2
  {
    var c := Encode(cp);
    assert Width(c[0]) == |c|;
    assert ScalarAt(c, 0);
  }

  lemma LowBits(hi: nat, lo: nat)
    requires lo < 64
    ensures (hi * 64 + lo) / 64 == hi && (hi * 64 + lo) % 64 == lo
  {
  }

  lemma Regroup(cp: nat)
    ensures cp / 4096 == cp / 64 / 64 && cp / 262144 == cp / 64 / 64 / 64
  {
  }

  /** The parts of a value of up to four groups of six bits. */
  lemma Groups(a: nat, b: nat, c: nat, d: nat) returns (cp: nat)
    requires b < 64 && c < 64 && d < 64
    ensures cp == ((a * 64 + b) * 64 + c) * 64 + d
    ensures cp / 262144 == a && cp / 4096 % 64 == b && cp / 64 % 64 == c && cp % 64 == d
    ensures cp / 4096 == a * 64 + b && cp / 64 == (a * 64 + b) * 64 + c
  {
    cp := ((a * 64 + b) * 64 + c) * 64 + d;
    LowBits((a * 64 + b) * 64 + c, d);
    LowBits(a * 64 + b, c);
    LowBits(a, b);
    Regroup(cp);
  }

  lemma TwoBytes(c: str, cp: nat)
    requires |c| == 2 && 0xC2 <= c[0] < 0xE0 && IsContinuation(c[1])
    requires cp / 64 == c[0] as nat - 0xC0 && cp % 64 == c[1] as nat - 0x80
    ensures IsValue(cp) && Encode(cp) == c
  {
  }

  lemma ThreeBytes(c: str, cp: nat)
    requires |c| == 3 && 0xE0 <= c[0] < 0xF0 && SecondByteFits(c[0], c[1]) && IsContinuation(c[2])
    requires cp / 4096 == c[0] as nat - 0xE0 && cp / 64 % 64 == c[1] as nat - 0x80 && cp % 64 == c[2] as nat - 0x80
    ensures IsValue(cp) && Encode(cp) == c
  {
  }

  lemma FourBytes(c: str, cp: nat)
    requires |c| == 4 && 0xF0 <= c[0] <= 0xF4 && SecondByteFits(c[0], c[1])
    requires IsContinuation(c[2]) && IsContinuation(c[3])
    requires cp / 262144 == c[0] as nat - 0xF0 && cp / 4096 % 64 == c[1] as nat - 0x80
    requires cp / 64 % 64 == c[2] as nat - 0x80 && cp % 64 == c[3] as nat - 0x80
    ensures IsValue(cp) && Encode(cp) == c
  {
  }

  /** Every scalar encodes one value. */
  lemma Decoded(c: str) returns (cp: nat)
    requires IsScalar(c)
    ensures IsValue(cp) && Encode(cp) == c
  {
    hide Encode;
    assert ScalarAt(c, 0);
    if |c| == 1 {
      cp := c[0] as nat;
      OneByte(c);
    } else if |c| == 2 {
      cp := Groups(0, 0, c[0] as nat - 0xC0, c[1] as nat - 0x80);
      TwoBytes(c, cp);
    } else if |c| == 3 {
      cp := Groups(0, c[0] as nat - 0xE0, c[1] as nat - 0x80, c[2] as nat - 0x80);
      ThreeBytes(c, cp);
    } else {
      cp := Groups(c[0] as nat - 0xF0, c[1] as nat - 0x80, c[2] as nat - 0x80, c[3] as nat - 0x80);
      FourBytes(c, cp);
    }
  }

  lemma OneByte(c: str)
    requires |c| == 1 && c[0] < 0x80
    ensures Encode(c[0] as nat) == c
  {
  }

  lemma {:induction false} EncodedText(cps: seq<nat>)
    requires AllValues(cps)
    ensures WellFormed(EncodeAll(cps)) && Units(EncodeAll(cps)) == UnitsOf(cps)
    ensures |Chars(EncodeAll(cps))| == |cps|
    ensures forall k :: 0 <= k < |cps| ==> Chars(EncodeAll(cps))[k] == Encode(cps[k])
  {
    hide WellFormed, Encode, IsScalar;
    NoText();
    if cps != [] {
      EncodedText(cps[1..]);
      EncodeIsScalar(cps[0]);
      ScalarEndsAtWidth(Encode(cps[0]), EncodeAll(cps[1..]));
    }
  }

  lemma NoText()
    ensures WellFormed([]) && Chars([]) == []
  {
  }

  lemma {:induction false} DecodedText(s: str) returns (cps: seq<nat>)
    requires WellFormed(s)
    ensures AllValues(cps) && EncodeAll(cps) == s
    decreases |s|
  {
    hide WellFormed, Encode, IsScalar;
    cps := [];
    if s != [] {
      FirstScalar(s);
      var w := Width(s[0]);
      var first := Decoded(s[..w]);
      var rest := DecodedText(s[w..]);
      cps := [first] + rest;
      assert cps[1..] == rest && s[..w] + s[w..] == s;
    }
  }

  /** The well-formed texts are the encodings of sequences of values, and no others. */
  lemma TextsAreEncodings(s: str)
    ensures WellFormed(s) <==> exists cps :: AllValues(cps) && EncodeAll(cps) == s
  {
    hide WellFormed, Encode;
    if WellFormed(s) { var _ := DecodedText(s); }
    if cps :| AllValues(cps) && EncodeAll(cps) == s { EncodedText(cps); }
  }
}
