/**
 UTF-16 as defined in RFC 2781, section 2.1, and the length the program takes from it
 (debug/offsets.py, `utf16_len`).  A `char` is one Unicode code point that is not a surrogate.
 */
module Utf16 {
  import opened Options

  /** The code units of one code point. */
  function UnitsOf(c: char): (u: seq<nat>)
    ensures 1 <= |u| <= 2
  {
    var v := c as int;
    if v < 0x1_0000 then [v]
    else
      var v' := v - 0x1_0000;
      [0xD800 + v' / 0x400, 0xDC00 + v' % 0x400]
  }

  function Units(text: string): seq<nat> {
    if text == "" then [] else UnitsOf(text[0]) + Units(text[1..])
  }

  /** Little-endian bytes, as the encoder produces them. */
  function EncodeLittleEndian(text: string): seq<nat> {
    Bytes(Units(text))
  }

  function Bytes(units: seq<nat>): (b: seq<nat>)
    ensures |b| == 2 * |units|
  {
    if units == [] then [] else [units[0] % 0x100, units[0] / 0x100] + Bytes(units[1..])
  }

  function Utf16Len(text: string): nat {
    |EncodeLittleEndian(text)| / 2
  }

  lemma {:induction false} UnitsConcat(a: string, b: string)
    ensures Units(a + b) == Units(a) + Units(b)
  {
    if a == "" {
      assert a + b == b;
    } else {
      assert (a + b)[1..] == a[1..] + b;
      UnitsConcat(a[1..], b);
    }
  }

  lemma LengthCountsUnits(text: string)
    ensures Utf16Len(text) == |Units(text)|
  {
  }

  lemma SliceOfUnits(text: string, i: nat, j: nat)
    requires i <= j <= |text|
    ensures |Units(text[..j])| == |Units(text[..i])| + |Units(text[i..j])|
    ensures |Units(text[..j])| <= |Units(text)|
    ensures Units(text)[|Units(text[..i])|..|Units(text[..j])|] == Units(text[i..j])
  {
    var a, m, z := text[..i], text[i..j], text[j..];
    assert text[..j] == a + m && text == (a + m) + z;
    UnitsConcat(a, m);
    UnitsConcat(a + m, z);
    MiddleOf(Units(a), Units(m), Units(z));
  }

  lemma MiddleOf(a: seq<nat>, m: seq<nat>, z: seq<nat>)
    ensures ((a + m) + z)[|a|..|a + m|] == m
  {
  }

  /** A slice by code points is the slice by code units at the corresponding UTF-16 offsets. */
  lemma SliceInUnits(text: string, i: nat, j: nat)
    requires i <= j <= |text|
    ensures Utf16Len(text[..i]) <= Utf16Len(text[..j]) <= |Units(text)|
    ensures Units(text)[Utf16Len(text[..i])..Utf16Len(text[..j])] == Units(text[i..j])
    ensures Utf16Len(text[..j]) - Utf16Len(text[..i]) == Utf16Len(text[i..j])
  {
    LengthCountsUnits(text[..i]);
    LengthCountsUnits(text[..j]);
    LengthCountsUnits(text[i..j]);
    SliceOfUnits(text, i, j);
  }

  // ----- The encoding is UTF-16 -----

  function CodePoints(text: string): (points: seq<nat>)
    ensures |points| == |text|
  {
    seq(|text|, i requires 0 <= i < |text| => text[i] as int)
  }

  /** The decoder of section 2.2 of RFC 2781; `None` for units that are no UTF-16. */
  function Decoded(units: seq<nat>): Option<seq<nat>>
    decreases |units|
  {
    if units == [] then Some([])
    else if units[0] < 0xD800 || 0xDFFF < units[0] then Prefixed(units[0], Decoded(units[1..]))
    else if 0xDBFF < units[0] || |units| == 1 || units[1] < 0xDC00 || 0xDFFF < units[1] then None
    else Prefixed((units[0] - 0xD800) * 0x400 + (units[1] - 0xDC00) + 0x1_0000, Decoded(units[2..]))
  }

  function Prefixed(point: nat, rest: Option<seq<nat>>): Option<seq<nat>> {
    if rest.Some? then Some([point] + rest.value) else None
  }

  lemma DecodesOne(c: char, rest: seq<nat>)
    ensures Decoded(UnitsOf(c) + rest) == Prefixed(c as int, Decoded(rest))
    ensures forall u :: u in UnitsOf(c) ==> u < 0x1_0000
  {
    var u, v := UnitsOf(c), c as int;
    if v < 0x1_0000 {
      assert (u + rest)[1..] == rest;
    } else {
      var v' := v - 0x1_0000;
      assert v' < 0x10_0000 && v' / 0x400 < 0x400 && v' % 0x400 < 0x400;
      assert (u + rest)[2..] == rest;
      assert v' / 0x400 * 0x400 + v' % 0x400 == v';
    }
  }

  /** Every unit has 16 bits, and decoding the units gives back the text. */
  lemma {:induction false} UnitsDecode(text: string)
    ensures Decoded(Units(text)) == Some(CodePoints(text))
    ensures forall u :: u in Units(text) ==> u < 0x1_0000
  {
    if text == "" {
      assert CodePoints(text) == [];
    } else {
      UnitsDecode(text[1..]);
      DecodesOne(text[0], Units(text[1..]));
      assert CodePoints(text) == [text[0] as int] + CodePoints(text[1..]);
    }
  }

  /** The number of characters beyond the basic plane, each of which takes two units. */
  function Supplementary(text: string): (n: nat)
    ensures n <= |text|
  {
    if text == "" then 0 else (if text[0] as int >= 0x1_0000 then 1 else 0) + Supplementary(text[1..])
  }

  lemma {:induction false} LengthCountsSupplementaryTwice(text: string)
    ensures Utf16Len(text) == |text| + Supplementary(text)
  {
    LengthCountsUnits(text);
    if text != "" {
      LengthCountsSupplementaryTwice(text[1..]);
      LengthCountsUnits(text[1..]);
    }
  }

  function Assembled(bytes: seq<nat>): seq<nat> {
    if |bytes| < 2 then [] else [bytes[0] + 0x100 * bytes[1]] + Assembled(bytes[2..])
  }

  /** The bytes are those of the units, the low byte first. */
  lemma {:induction false} BytesAssemble(units: seq<nat>)
    requires forall u :: u in units ==> u < 0x1_0000
    ensures Assembled(Bytes(units)) == units
    ensures forall b :: b in Bytes(units) ==> b < 0x100
  {
    if units != [] {
      assert forall u :: u in units[1..] ==> u in units;
      BytesAssemble(units[1..]);
      assert Bytes(units)[2..] == Bytes(units[1..]);
      assert units[0] in units;
    }
  }

  /** Decoding the bytes the program produces gives back the text. */
  lemma EncodingDecodes(text: string)
    ensures Decoded(Assembled(EncodeLittleEndian(text))) == Some(CodePoints(text))
    ensures forall b :: b in EncodeLittleEndian(text) ==> b < 0x100
  {
    UnitsDecode(text);
    BytesAssemble(Units(text));
  }
}
