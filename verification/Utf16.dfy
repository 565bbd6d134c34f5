/** Byte offsets against UTF-16 offsets. */
module Utf16 {
  import opened Utf8
  import opened Errors
  import opened Seqs

  const U32_MAX: nat := 0xFFFF_FFFF

  /** A scalar of four bytes lies above U+FFFF and takes a surrogate pair. */
  function ScalarUnits(width: nat): nat {
    if width == 4 then 2 else 1
  }

  function ListUnits(cs: seq<str>): nat {
    if cs == [] then 0 else ScalarUnits(|cs[0]|) + ListUnits(cs[1..])
  }

  /** `encode_utf16().count()`. */
  function Units(s: str): nat
    requires WellFormed(s)
  {
    ListUnits(Chars(s))
  }

  function ByteToUtf16(text: str, byte: nat): Result<nat>
    requires WellFormed(text)
  {
    if byte <= |text| && IsBoundary(text, byte) then
      CutWellFormed(text, byte);
      if Units(text[..byte]) <= U32_MAX then Ok(Units(text[..byte])) else Err(InvalidPosition)
    else Err(InvalidPosition)
  }

  /** The loop of `utf16_to_byte` from a boundary `byte` that `units` code units precede. */
  function FindByte(text: str, byte: nat, units: nat, offset: nat): Result<nat>
    requires WellFormed(text) && byte <= |text| && IsBoundary(text, byte)
    decreases |text| - byte
  {
    if units == offset then Ok(byte)
    else if byte == |text| then Err(InvalidPosition)
    else
      assert ScalarAt(text, byte);
      var w := Width(text[byte]);
      if units + ScalarUnits(w) > offset then Err(InvalidPosition)
      else FindByte(text, byte + w, units + ScalarUnits(w), offset)
  }

  /** The same loop with its counter of 32 bits. */
  function FindWrapped(text: str, byte: nat, units: nat, offset: nat): Result<nat>
    requires WellFormed(text) && byte <= |text| && IsBoundary(text, byte)
    decreases |text| - byte
  {
    if units == offset then Ok(byte)
    else if byte == |text| then Err(InvalidPosition)
    else
      assert ScalarAt(text, byte);
      var w := Width(text[byte]);
      var next := Wrap(units + ScalarUnits(w));
      if next > offset then Err(InvalidPosition) else FindWrapped(text, byte + w, next, offset)
  }

  function Wrap(n: nat): nat {
    n % (U32_MAX + 1)
  }

  function Utf16ToByte(text: str, offset: nat): Result<nat>
    requires WellFormed(text)
  {
    FindWrapped(text, 0, 0, offset)
  }

  method FindUtf16(text: str, offset: nat) returns (r: Result<nat>)
    requires WellFormed(text) && offset <= U32_MAX
    ensures r == Utf16ToByte(text, offset)
  {
    hide Units;
    var units: nat, byte: nat := 0, 0;
    while byte < |text|
      invariant byte <= |text| && IsBoundary(text, byte)
      invariant FindWrapped(text, byte, units, offset) == Utf16ToByte(text, offset)
      decreases |text| - byte
    {
      if units == offset {
        return Ok(byte);
      }
      assert ScalarAt(text, byte);
      var w := Width(text[byte]);
      units := Wrap(units + ScalarUnits(w));
      if units > offset {
        return Err(InvalidPosition);
      }
      byte := byte + w;
    }
    return if units == offset then Ok(|text|) else Err(InvalidPosition);
  }

  lemma {:induction false} ListUnitsAppend(a: seq<str>, b: seq<str>)
    ensures ListUnits(a + b) == ListUnits(a) + ListUnits(b)
  {
    if a == [] {
      assert a + b == b;
    } else {
      HeadTail(a, b);
      ListUnitsAppend(a[1..], b);
    }
  }

  lemma UnitsAppend(a: str, b: str)
    requires WellFormed(a) && WellFormed(b)
    ensures WellFormed(a + b) && Units(a + b) == Units(a) + Units(b)
    ensures b != [] ==> Units(b) > 0
  {
    CharsAppend(a, b);
    ListUnitsAppend(Chars(a), Chars(b));
  }

  /** Reading one more scalar adds its units. */
  lemma UnitsStep(text: str, byte: nat)
    requires WellFormed(text) && byte < |text| && IsBoundary(text, byte)
    ensures var w := Width(text[byte]);
            && 1 <= w && byte + w <= |text| && IsBoundary(text, byte + w)
            && WellFormed(text[..byte]) && WellFormed(text[..byte + w])
            && Units(text[..byte + w]) == Units(text[..byte]) + ScalarUnits(w)
  {
    assert ScalarAt(text, byte);
    var w := Width(text[byte]);
    CutWellFormed(text, byte);
    CutWellFormed(text, byte + w);
    SliceWellFormed(text, byte, byte + w);
    var c := text[byte..byte + w];
    assert text[..byte + w] == text[..byte] + c;
    UnitsAppend(text[..byte], c);
    OneScalarUnits(c);
  }

  lemma OneScalarUnits(c: str)
    requires IsScalar(c)
    ensures Units(c) == ScalarUnits(|c|)
  {
    FirstScalar(c);
    assert c[..|c|] == c && c[|c|..] == [];
    assert Chars(c) == [c] + Chars([]) == [c];
    assert ListUnits([c]) == ScalarUnits(|c|) + ListUnits([c][1..]);
  }

  /** Later boundaries have more UTF-16 units before them. */
  lemma UnitsStrictlyMonotone(text: str, a: nat, b: nat)
    requires WellFormed(text) && a < b <= |text| && IsBoundary(text, a) && IsBoundary(text, b)
    ensures WellFormed(text[..a]) && WellFormed(text[..b])
    ensures Units(text[..a]) < Units(text[..b])
  {
    CutWellFormed(text, a);
    CutWellFormed(text, b);
    SliceWellFormed(text, a, b);
    assert text[..b] == text[..a] + text[a..b];
    UnitsAppend(text[..a], text[a..b]);
  }

  ghost predicate PairAt(text: str, byte: nat, offset: nat)
    requires WellFormed(text)
  {
    && byte < |text| && IsBoundary(text, byte) && Width(text[byte]) == 4
    && WellFormed(text[..byte]) && offset == Units(text[..byte]) + 1
  }

  /** The offset lies between the two halves of a surrogate pair. */
  ghost predicate SplitsPair(text: str, offset: nat)
    requires WellFormed(text)
  {
    exists byte: nat :: PairAt(text, byte, offset)
  }

  lemma PastOffset(text: str, byte: nat, offset: nat)
    requires WellFormed(text) && byte < |text| && IsBoundary(text, byte) && WellFormed(text[..byte])
    requires Units(text[..byte]) < offset < Units(text[..byte]) + ScalarUnits(Width(text[byte]))
    ensures SplitsPair(text, offset)
  {
    hide Units;
    assert PairAt(text, byte, offset);
  }

  /** The search lands on the boundary with the wanted number of units, when there is one. */
  lemma {:induction false} FindByteExact(text: str, byte: nat, offset: nat)
    requires WellFormed(text) && byte <= |text| && IsBoundary(text, byte)
    requires WellFormed(text[..byte]) && Units(text[..byte]) <= offset
    ensures var r := FindByte(text, byte, Units(text[..byte]), offset);
            && (r.Ok? ==> byte <= r.value <= |text| && IsBoundary(text, r.value)
                          && WellFormed(text[..r.value]) && Units(text[..r.value]) == offset)
            && (r.Err? ==> offset > Units(text) || SplitsPair(text, offset))
    decreases |text| - byte
  {
    if Units(text[..byte]) != offset {
      if byte == |text| {
        assert text[..byte] == text;
      } else {
        UnitsStep(text, byte);
        var w := Width(text[byte]);
        if Units(text[..byte + w]) > offset {
          PastOffset(text, byte, offset);
        } else {
          FindByteExact(text, byte + w, offset);
        }
      }
    }
  }

  lemma NoBoundaryInside(text: str, b: nat, i: nat)
    requires WellFormed(text) && b < |text| && IsBoundary(text, b)
    ensures b < i < b + Width(text[b]) ==> i < |text| && !IsBoundary(text, i)
  {
    assert ScalarAt(text, b);
  }

  /** A boundary is neither past the end nor inside a pair. */
  lemma NotSplit(text: str, byte: nat)
    requires WellFormed(text) && byte <= |text| && IsBoundary(text, byte)
    ensures WellFormed(text[..byte]) && Units(text[..byte]) <= Units(text) && !SplitsPair(text, Units(text[..byte]))
  {
    CutWellFormed(text, byte);
    assert text[..|text|] == text;
    if byte < |text| { UnitsStrictlyMonotone(text, byte, |text|); }
    forall b: nat
      ensures !PairAt(text, b, Units(text[..byte]))
    {
      if PairAt(text, b, Units(text[..byte])) {
        UnitsStep(text, b);
        if byte < b { UnitsStrictlyMonotone(text, byte, b); }
        if b + 4 < byte { UnitsStrictlyMonotone(text, b + 4, byte); }
        NoBoundaryInside(text, b, byte);
      }
    }
  }

  /** The offset is the greatest of 32 bits and lies inside a surrogate pair: only there does the counter wrap. */
  ghost predicate Straddles(text: str, offset: nat)
    requires WellFormed(text)
  {
    offset == U32_MAX && SplitsPair(text, offset)
  }

  lemma WrapSmall(n: nat)
    ensures n <= U32_MAX ==> Wrap(n) == n
    ensures Wrap(U32_MAX + 1) == 0
  {
  }

  /** One turn of the search where the counter does not wrap. */
  lemma WrappedTurn(text: str, byte: nat, units: nat, offset: nat)
    requires WellFormed(text) && byte < |text| && IsBoundary(text, byte) && WellFormed(text[..byte]) && units != offset
    ensures var w := Width(text[byte]);
            var next := units + ScalarUnits(w);
            && 1 <= w && byte + w <= |text| && IsBoundary(text, byte + w) && WellFormed(text[..byte + w])
            && Units(text[..byte + w]) == Units(text[..byte]) + ScalarUnits(w)
            && (next <= U32_MAX ==>
                  FindWrapped(text, byte, units, offset)
                  == if next > offset then Err(InvalidPosition) else FindWrapped(text, byte + w, next, offset))
  {
    hide Units, Wrap;
    UnitsStep(text, byte);
    WrapSmall(units + ScalarUnits(Width(text[byte])));
  }

  /** Up to the offset the counter does not wrap, so the search comes by every boundary before it. */
  lemma {:induction false} WrappedReaches(text: str, a: nat, b: nat, offset: nat)
    requires WellFormed(text) && a <= b <= |text| && IsBoundary(text, a) && IsBoundary(text, b)
    requires WellFormed(text[..a]) && WellFormed(text[..b]) && Units(text[..b]) <= offset <= U32_MAX
    ensures FindWrapped(text, a, Units(text[..a]), offset) == FindWrapped(text, b, Units(text[..b]), offset)
    decreases b - a
  {
    if a < b {
      hide Units, Wrap, FindWrapped, WellFormed, IsBoundary, ScalarUnits;
      UnitsStrictlyMonotone(text, a, b);
      WrappedTurn(text, a, Units(text[..a]), offset);
      var next := a + Width(text[a]);
      NoBoundaryInside(text, a, b);
      if next < b { UnitsStrictlyMonotone(text, next, b); }
      WrappedReaches(text, next, b, offset);
    }
  }

  lemma {:induction false} WrappedAgrees(text: str, byte: nat, offset: nat)
    requires WellFormed(text) && byte <= |text| && IsBoundary(text, byte)
    requires WellFormed(text[..byte]) && Units(text[..byte]) <= offset <= U32_MAX && !Straddles(text, offset)
    ensures FindWrapped(text, byte, Units(text[..byte]), offset) == FindByte(text, byte, Units(text[..byte]), offset)
    decreases |text| - byte
  {
    hide Units, Wrap, WellFormed, IsBoundary;
    if byte < |text| && Units(text[..byte]) != offset {
      WrappedTurn(text, byte, Units(text[..byte]), offset);
      var w := Width(text[byte]);
      if Units(text[..byte + w]) <= offset {
        WrappedAgrees(text, byte + w, offset);
      } else {
        PastOffset(text, byte, offset);
      }
    }
  }

  /** A search with too few units left fails. */
  lemma {:induction false} WrappedShort(text: str, byte: nat, units: nat, offset: nat)
    requires WellFormed(text) && byte <= |text| && IsBoundary(text, byte) && WellFormed(text[..byte])
    requires units + Units(text) < offset + Units(text[..byte]) && offset <= U32_MAX
    ensures Units(text[..byte]) <= Units(text) && FindWrapped(text, byte, units, offset) == Err(InvalidPosition)
    decreases |text| - byte
  {
    hide Units, Wrap, WellFormed, IsBoundary;
    NotSplit(text, byte);
    if byte < |text| {
      WrappedTurn(text, byte, units, offset);
      var w := Width(text[byte]);
      NotSplit(text, byte + w);
      WrappedShort(text, byte + w, units + ScalarUnits(w), offset);
    }
  }

  lemma NoUnits(text: str)
    ensures text[..0] == [] && Units([]) == 0
  {
  }

  /** The counter of 32 bits matters only where the greatest offset lies inside a pair: there the search goes on
      behind the pair with the counter at 0. */
  lemma Utf16Search(text: str, offset: nat)
    requires WellFormed(text) && offset <= U32_MAX
    ensures !Straddles(text, offset) ==> Utf16ToByte(text, offset) == FindByte(text, 0, 0, offset)
    ensures forall byte: nat :: offset == U32_MAX && PairAt(text, byte, offset) ==>
              IsBoundary(text, byte + 4) && Utf16ToByte(text, offset) == FindWrapped(text, byte + 4, 0, offset)
  {
    NoUnits(text);
    if !Straddles(text, offset) { WrappedAgrees(text, 0, offset); }
    forall byte: nat | offset == U32_MAX && PairAt(text, byte, offset)
      ensures IsBoundary(text, byte + 4) && Utf16ToByte(text, offset) == FindWrapped(text, byte + 4, 0, offset)
    {
      WrappedReaches(text, 0, byte, offset);
      UnitsStep(text, byte);
    }
  }

  /** `byte_to_utf16` succeeds exactly on boundaries, and `utf16_to_byte` undoes it there. */
  lemma ByteRoundTrip(text: str, byte: nat)
    requires WellFormed(text)
    ensures Units(text) <= U32_MAX ==> (ByteToUtf16(text, byte).Ok? <==> byte <= |text| && IsBoundary(text, byte))
    ensures ByteToUtf16(text, byte).Ok? ==> Utf16ToByte(text, ByteToUtf16(text, byte).value) == Ok(byte)
  {
    if byte <= |text| && IsBoundary(text, byte) { NotSplit(text, byte); }
    if ByteToUtf16(text, byte).Ok? {
      var offset := ByteToUtf16(text, byte).value;
      NoUnits(text);
      Utf16Search(text, offset);
      FindByteExact(text, 0, offset);
      var r := Utf16ToByte(text, offset);
      if r.Ok? {
        if r.value < byte { UnitsStrictlyMonotone(text, r.value, byte); }
        if byte < r.value { UnitsStrictlyMonotone(text, byte, r.value); }
      }
    }
  }

  /** `byte_to_utf16` undoes `utf16_to_byte`, which fails exactly past the end and inside a surrogate pair. The counter
      could come round again only in a text of 2^33 - 1 units or more, behind a pair that the greatest offset splits. */
  lemma Utf16RoundTrip(text: str, offset: nat)
    requires WellFormed(text) && offset <= U32_MAX
    requires Straddles(text, offset) ==> Units(text) < 2 * U32_MAX + 1
    ensures Utf16ToByte(text, offset).Ok? ==> ByteToUtf16(text, Utf16ToByte(text, offset).value) == Ok(offset)
    ensures Utf16ToByte(text, offset).Err? <==> offset > Units(text) || SplitsPair(text, offset)
  {
    hide Units, FindWrapped, FindByte;
    NoUnits(text);
    Utf16Search(text, offset);
    if Straddles(text, offset) {
      var byte: nat :| PairAt(text, byte, offset);
      UnitsStep(text, byte);
      WrappedShort(text, byte + 4, 0, offset);
    } else {
      FindByteExact(text, 0, offset);
      if Utf16ToByte(text, offset).Ok? { NotSplit(text, Utf16ToByte(text, offset).value); }
    }
  }
}
