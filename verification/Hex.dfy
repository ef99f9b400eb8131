/** Zero-padded hexadecimal numbers, as file names carry them. */
module Hex {
  import opened Primitives

  function Ascii(text: string): (r: seq<u8>)
    requires forall i :: 0 <= i < |text| ==> text[i] as int < 0x80
    ensures |r| == |text|
  {
    seq(|text|, i requires 0 <= i < |text| => text[i] as u8)
  }

  function Digit(value: nat): (r: u8)
    requires value < 16
    ensures DigitValue(r) == Some(value) && (0x30 <= r <= 0x39 || 0x61 <= r <= 0x66)
  {
    if value < 10 then 0x30 + value else 0x61 + (value - 10)
  }

  /** Both cases are read, lower case is written. */
  function DigitValue(digit: u8): (r: Option<nat>)
    ensures r.Some? ==> r.value < 16
  {
    if 0x30 <= digit <= 0x39 then Some(digit - 0x30)
    else if 0x61 <= digit <= 0x66 then Some(digit - 0x61 + 10)
    else if 0x41 <= digit <= 0x46 then Some(digit - 0x41 + 10)
    else None
  }

  function Power16(width: nat): (r: nat)
    ensures r > 0
  {
    if width == 0 then 1 else 16 * Power16(width - 1)
  }

  function Padded(value: nat, width: nat): (r: seq<u8>)
    ensures |r| == width
  {
    if width == 0 then [] else Padded(value / 16, width - 1) + [Digit(value % 16)]
  }

  function Parse(text: seq<u8>): Option<nat> {
    if text == [] then Some(0)
    else
      var front, last := Parse(text[..|text| - 1]), DigitValue(text[|text| - 1]);
      if front.Some? && last.Some? then Some(16 * front.value + last.value) else None
  }

  lemma {:induction false} ParsePadded(value: nat, width: nat)
    requires value < Power16(width)
    ensures Parse(Padded(value, width)) == Some(value)
  {
    if width > 0 {
      var front := Padded(value / 16, width - 1);
      assert (front + [Digit(value % 16)])[..width - 1] == front;
      ParsePadded(value / 16, width - 1);
    }
  }

  /** Digits alone never exceed their width. */
  lemma {:induction false} ParseIsBounded(text: seq<u8>)
    ensures Parse(text).Some? ==> Parse(text).value < Power16(|text|)
  {
    if text != [] {
      ParseIsBounded(text[..|text| - 1]);
    }
  }

  lemma SixteenDigits()
    ensures Power16(16) == U64_MAX + 1
  {
    assert Power16(4) == 0x1_0000;
    assert Power16(8) == 0x1_0000_0000;
    assert Power16(12) == 0x1_0000_0000_0000;
  }

  lemma FourDigits()
    ensures Power16(4) == 0x1_0000
  {
  }
}
