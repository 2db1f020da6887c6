/** The byte lengths of strings against the encoding itself: RFC 3629. */
module Utf8 {
  import opened Semantics

  predicate Tail(b: Byte) {
    0x80 <= b <= 0xbf
  }

  /** The syntax of one encoded character, section 4 of RFC 3629: the shortest form, no surrogates. */
  predicate IsCharacter(s: seq<Byte>) {
    || (|s| == 1 && s[0] <= 0x7f)
    || (|s| == 2 && 0xc2 <= s[0] <= 0xdf && Tail(s[1]))
    || (|s| == 3 && Tail(s[1]) && Tail(s[2])
        && ((s[0] == 0xe0 && 0xa0 <= s[1]) || 0xe1 <= s[0] <= 0xec || (s[0] == 0xed && s[1] <= 0x9f)
            || 0xee <= s[0] <= 0xef))
    || (|s| == 4 && Tail(s[1]) && Tail(s[2]) && Tail(s[3])
        && ((s[0] == 0xf0 && 0x90 <= s[1]) || 0xf1 <= s[0] <= 0xf3 || (s[0] == 0xf4 && s[1] <= 0x8f)))
  }

  /** The character number the bytes carry, section 3 of RFC 3629: six bits in every further byte. */
  function Number(s: seq<Byte>): int
    requires IsCharacter(s)
  {
    if |s| == 1 then s[0]
    else if |s| == 2 then SixMore(s[0] as int - 0xc0, s[1])
    else if |s| == 3 then SixMore(SixMore(s[0] as int - 0xe0, s[1]), s[2])
    else SixMore(SixMore(SixMore(s[0] as int - 0xf0, s[1]), s[2]), s[3])
  }

  function SixMore(bits: int, tail: Byte): int {
    bits * 0x40 + tail as int - 0x80
  }

  function Last(n: nat): (b: Byte)
    ensures Tail(b) && SixMore(n / 0x40, b) == n
  {
    0x80 + n % 0x40
  }

  function Encoded(c: char): seq<Byte> {
    var n := c as int;
    if n < 0x80 then [n]
    else if n < 0x800 then [0xc0 + n / 0x40, Last(n)]
    else if n < 0x1_0000 then [0xe0 + n / 0x40 / 0x40, Last(n / 0x40), Last(n)]
    else [0xf0 + n / 0x40 / 0x40 / 0x40, Last(n / 0x40 / 0x40), Last(n / 0x40), Last(n)]
  }

  lemma EncodedIsCharacter(c: char)
    ensures IsCharacter(Encoded(c)) && Number(Encoded(c)) == c as int
  {
  }

  /** The counted width is the length of every encoding of the character there is. */
  lemma WidthIsEncoding(c: char, s: seq<Byte>)
    requires IsCharacter(s) && Number(s) == c as int
    ensures |s| == Utf8Width(c)
  {
  }

  function EncodedText(s: string): seq<Byte> {
    if s == "" then [] else Encoded(s[0]) + EncodedText(s[1..])
  }

  /** The counted length is the length of the encoded string. */
  lemma {:induction false} LengthIsEncoding(s: string)
    ensures Utf8Length(s) == |EncodedText(s)|
  {
    if s != "" {
      EncodedIsCharacter(s[0]);
      WidthIsEncoding(s[0], Encoded(s[0]));
      LengthIsEncoding(s[1..]);
    }
  }
}
