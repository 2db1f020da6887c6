/** Which texts decode, to what, and why the others do not: the escapes of a properties fragment as a
    grammar, and UTF-16 as an encoding. */
module PropertiesGrammar {
  import opened Wrappers
  import opened PropertiesModel
  import opened PropertiesRoundTrip

  // ------------------------------------------------------------------------------------- digits

  const LOWER := "0123456789abcdef"
  const UPPER := "0123456789ABCDEF"

  /** The value of a digit is its place among the sixteen, in either case. */
  lemma HexDigitsAre(c: char, d: nat)
    ensures HexValue(c) == Some(d) <==> d < 16 && (c == LOWER[d] || c == UPPER[d])
  {
  }

  /** Four digits, each worth sixteen of the next. */
  ghost predicate Spells(h: string, u: nat) {
    && |h| == 4 && (forall i :: 0 <= i < 4 ==> HexValue(h[i]).Some?)
    && u == ((HexValue(h[0]).value * 16 + HexValue(h[1]).value) * 16 + HexValue(h[2]).value) * 16
            + HexValue(h[3]).value
  }

  // ------------------------------------------------------------------------------------- pieces

  /** A character that stands for itself, one behind a backslash, or four digits behind `\u`. */
  datatype Piece = Plain(c: char) | Escape(c: char) | Unicode(digits: string)

  ghost predicate IsPiece(p: Piece) {
    match p
    case Plain(c) => c != '\\'
    case Escape(c) => c != 'u'
    case Unicode(h) => exists u: nat :: Spells(h, u)
  }

  function PieceText(p: Piece): string {
    match p
    case Plain(c) => [c]
    case Escape(c) => ['\\', c]
    case Unicode(h) => "\\u" + h
  }

  /** A tab, line feed, carriage return and form feed behind their letters; any other character itself. */
  ghost predicate Denotes(p: Piece, u: nat) {
    match p
    case Plain(c) => u == c as int
    case Escape(c) =>
      if c == 't' then u == '\t' as int else if c == 'n' then u == '\n' as int
      else if c == 'r' then u == '\r' as int else if c == 'f' then u == 12
      else u == c as int
    case Unicode(h) => Spells(h, u)
  }

  function Text(pieces: seq<Piece>): string {
    if pieces == [] then "" else PieceText(pieces[0]) + Text(pieces[1..])
  }

  ghost predicate Denote(pieces: seq<Piece>, units: seq<nat>) {
    && |pieces| == |units|
    && forall i :: 0 <= i < |pieces| ==> IsPiece(pieces[i]) && Denotes(pieces[i], units[i])
  }

  lemma HexIs(s: string, u: nat)
    requires |s| >= 4
    ensures Hex4(s) == Some(u) <==> Spells(s[..4], u)
  {
  }

  /** One piece in front denotes one unit in front. */
  lemma OnePiece(p: Piece, u: nat, rest: string)
    requires IsPiece(p) && Denotes(p, u)
    ensures Units(PieceText(p) + rest) == Before(u, Units(rest))
  {
    var s := PieceText(p) + rest;
    match p
    case Plain(c) => assert s[0] == c && s[1..] == rest;
    case Escape(c) => assert s[0] == '\\' && s[1] == c && s[2..] == rest;
    case Unicode(h) =>
      assert s[0] == '\\' && s[1] == 'u' && s[2..] == h + rest && s[2..][..4] == h && s[6..] == rest;
      HexIs(s[2..], u);
  }

  /** A text made of pieces decodes to what they denote. */
  lemma {:induction false} PiecesDecode(pieces: seq<Piece>, units: seq<nat>)
    requires Denote(pieces, units)
    ensures Units(Text(pieces)) == Ok(units)
  {
    if pieces != [] {
      PiecesDecode(pieces[1..], units[1..]);
      OnePiece(pieces[0], units[0], Text(pieces[1..]));
      assert [units[0]] + units[1..] == units;
    }
  }

  /** Why a text that no pieces make fails: a backslash at its end, or `\u` without four digits. */
  ghost predicate Stops(rest: string, e: Error) {
    if rest == "\\" then e == TrailingEscape
    else |rest| >= 2 && rest[0] == '\\' && rest[1] == 'u' && Hex4(rest[2..]).None? && e == MalformedUnicode
  }

  /** The piece a text begins with. */
  lemma FirstPiece(s: string) returns (p: Piece, u: nat, rest: string)
    requires s != "" && !exists e :: Stops(s, e)
    ensures IsPiece(p) && Denotes(p, u) && s == PieceText(p) + rest && |rest| < |s|
  {
    if s[0] != '\\' {
      p, u, rest := Plain(s[0]), s[0] as int, s[1..];
    } else {
      assert !Stops(s, TrailingEscape) && !Stops(s, MalformedUnicode);
      assert |s| == 1 ==> s == "\\";
      if s[1] != 'u' {
        p, u, rest := Escape(s[1]), Unescaped(s[1]), s[2..];
      } else {
        p, u, rest := Unicode(s[2..][..4]), Hex4(s[2..]).value, s[6..];
        HexIs(s[2..], u);
        assert s == "\\u" + s[2..] && s[2..] == s[2..][..4] + s[6..];
      }
    }
  }

  /** Every text is pieces, all the way or up to where it fails: decoding succeeds exactly on the texts
      made of pieces alone. */
  lemma {:induction false} EveryTextIsPieces(s: string)
    returns (pieces: seq<Piece>, units: seq<nat>, rest: string)
    ensures Denote(pieces, units) && s == Text(pieces) + rest
    ensures Units(s).Ok? ==> rest == "" && Units(s).value == units
    ensures Units(s).Failed? ==> rest != "" && Stops(rest, Units(s).error)
    decreases |s|
  {
    if s == "" || exists e :: Stops(s, e) {
      pieces, units, rest := [], [], s;
      StoppedTextsFail(s);
    } else {
      var p, u, tail := FirstPiece(s);
      var more, later;
      more, later, rest := EveryTextIsPieces(tail);
      pieces, units := [p] + more, [u] + later;
      OnePiece(p, u, tail);
      OneMore(p, u, more, later, rest);
    }
  }

  lemma OneMore(p: Piece, u: nat, pieces: seq<Piece>, units: seq<nat>, rest: string)
    requires IsPiece(p) && Denotes(p, u) && Denote(pieces, units)
    ensures Denote([p] + pieces, [u] + units)
    ensures Text([p] + pieces) + rest == PieceText(p) + (Text(pieces) + rest)
  {
    assert ([p] + pieces)[1..] == pieces;
  }

  lemma StoppedTextsFail(s: string)
    ensures forall e :: Stops(s, e) ==> Units(s) == Failed(e)
    ensures s == "" ==> Units(s) == Ok([]) && "" + s == s
  {
  }

  // ------------------------------------------------------------------------------------ UTF-16

  /** What decodes as UTF-16 is an encoding, of exactly the characters it decodes to. */
  lemma {:induction false} DecodedIsEncoded(units: seq<nat>) returns (text: seq<Scalar>)
    requires CodePoints(units).Ok? && forall i :: 0 <= i < |units| ==> units[i] < 0x1_0000
    ensures CodePoints(units) == Ok(text) && Encoded(text) == units
    decreases |units|
  {
    if units == [] {
      text := [];
    } else if IsHigh(units[0]) {
      var p := 0x1_0000 + (units[0] - 0xd800) * 0x400 + (units[1] - 0xdc00);
      var rest := DecodedIsEncoded(units[2..]);
      text := [p] + rest;
      PairIsEncoded(units[0], units[1]);
      assert text[1..] == rest && [units[0], units[1]] + units[2..] == units;
    } else {
      var rest := DecodedIsEncoded(units[1..]);
      text := [units[0]] + rest;
      assert text[1..] == rest && [units[0]] + units[1..] == units;
    }
  }

  lemma PairIsEncoded(high: nat, low: nat)
    requires IsHigh(high) && IsLow(low)
    ensures var p := 0x1_0000 + (high - 0xd800) * 0x400 + (low - 0xdc00);
      0x1_0000 <= p < 0x11_0000 && EncodedScalar(p) == [high, low]
  {
  }

  /** So it fails exactly on what is no encoding of anything. */
  lemma DecodesIffEncoding(units: seq<nat>)
    requires forall i :: 0 <= i < |units| ==> units[i] < 0x1_0000
    ensures CodePoints(units).Ok? <==> exists text: seq<Scalar> :: Encoded(text) == units
  {
    if CodePoints(units).Ok? {
      var text := DecodedIsEncoded(units);
    }
    if text: seq<Scalar> :| Encoded(text) == units {
      EncodedIsDecoded(text);
    }
  }
}
