/**
  Pagination cursors: unpadded base64url (section 5 of RFC 4648) around a printed pair.
  The JSON text itself is foreign; its printer and parser are parameters that invert each other.
*/
module Cursor {
  import opened Wrappers

  type Byte = b: int | 0 <= b < 256

  // ----- The alphabet -----

  function Letter(i: int): char
    requires 0 <= i < 64
  {
    if i < 26 then ('A' as int + i) as char
    else if i < 52 then ('a' as int + i - 26) as char
    else if i < 62 then ('0' as int + i - 52) as char
    else if i == 62 then '-'
    else '_'
  }

  const ALPHABET := "ABCDEFGHIJKLMNOPQRSTUVWXYZ" + "abcdefghijklmnopqrstuvwxyz" + "0123456789" + "-_"

  /** Table 2 of RFC 4648, in full. */
  lemma LetterExact(i: int)
    requires 0 <= i < 64
    ensures |ALPHABET| == 64 && Letter(i) == ALPHABET[i]
  {}

  /** The value of a letter, or -1. */
  function ValueOf(c: char): (v: int)
    ensures -1 <= v < 64
  {
    if 'A' <= c <= 'Z' then c as int - 'A' as int
    else if 'a' <= c <= 'z' then c as int - 'a' as int + 26
    else if '0' <= c <= '9' then c as int - '0' as int + 52
    else if c == '-' then 62
    else if c == '_' then 63
    else -1
  }

  lemma LetterValue(i: int)
    requires 0 <= i < 64
    ensures ValueOf(Letter(i)) == i && Letter(i) != '='
  {}

  lemma ValueLetter(c: char)
    requires ValueOf(c) >= 0
    ensures Letter(ValueOf(c)) == c
  {}

  /** The letters are those of the alphabet, and no others. */
  lemma ValueExact(c: char)
    ensures ValueOf(c) >= 0 <==> c in ALPHABET
  {
    if ValueOf(c) >= 0 {
      ValueLetter(c);
      LetterExact(ValueOf(c));
    }
    if c in ALPHABET {
      LetterExact(0);
      var i :| 0 <= i < |ALPHABET| && ALPHABET[i] == c;
      LetterExact(i);
      LetterValue(i);
    }
  }

  // ----- Bytes and sextets -----

  type Sextet = v: int | 0 <= v < 64

  function Six0(b0: Byte): Sextet { b0 / 4 }
  function Six1(b0: Byte, b1: Byte): Sextet { b0 % 4 * 16 + b1 / 16 }
  function Six2(b1: Byte, b2: Byte): Sextet { b1 % 16 * 4 + b2 / 64 }
  function Six3(b2: Byte): Sextet { b2 % 64 }

  function Byte0(v0: Sextet, v1: Sextet): Byte { v0 * 4 + v1 / 16 }
  function Byte1(v1: Sextet, v2: Sextet): Byte { v1 % 16 * 16 + v2 / 4 }
  function Byte2(v2: Sextet, v3: Sextet): Byte { v2 % 4 * 64 + v3 }

  /** Three bytes become four sextets; one or two bytes at the end become two or three. */
  function Pack(bytes: seq<Byte>): seq<Sextet> {
    if bytes == [] then []
    else if |bytes| == 1 then [Six0(bytes[0]), Six1(bytes[0], 0)]
    else if |bytes| == 2 then [Six0(bytes[0]), Six1(bytes[0], bytes[1]), Six2(bytes[1], 0)]
    else Four(bytes[0], bytes[1], bytes[2]) + Pack(bytes[3..])
  }

  function Four(b0: Byte, b1: Byte, b2: Byte): seq<Sextet> {
    [Six0(b0), Six1(b0, b1), Six2(b1, b2), Six3(b2)]
  }

  function Unpack(vs: seq<Sextet>): seq<Byte> {
    if |vs| < 2 then []
    else if |vs| == 2 then [Byte0(vs[0], vs[1])]
    else if |vs| == 3 then [Byte0(vs[0], vs[1]), Byte1(vs[1], vs[2])]
    else [Byte0(vs[0], vs[1]), Byte1(vs[1], vs[2]), Byte2(vs[2], vs[3])] + Unpack(vs[4..])
  }

  lemma Sextets(b0: Byte, b1: Byte, b2: Byte)
    ensures Byte0(Six0(b0), Six1(b0, b1)) == b0
    ensures Byte1(Six1(b0, b1), Six2(b1, b2)) == b1
    ensures Byte2(Six2(b1, b2), Six3(b2)) == b2
  {}

  /** One sextet alone at the end holds no byte. */
  predicate WholeBytes(sextets: nat) {
    sextets % 4 != 1
  }

  lemma {:induction false} PackedWhole(bytes: seq<Byte>)
    ensures WholeBytes(|Pack(bytes)|)
  {
    if |bytes| >= 3 {
      PackedWhole(bytes[3..]);
    }
  }

  lemma UnpackFour(vs: seq<Sextet>, rest: seq<Sextet>)
    requires |vs| == 4
    ensures Unpack(vs + rest) == [Byte0(vs[0], vs[1]), Byte1(vs[1], vs[2]), Byte2(vs[2], vs[3])] + Unpack(rest)
  {
    assert (vs + rest)[4..] == rest;
  }

  lemma FourBack(b0: Byte, b1: Byte, b2: Byte, rest: seq<Sextet>)
    ensures Unpack(Four(b0, b1, b2) + rest) == [b0, b1, b2] + Unpack(rest)
  {
    UnpackFour(Four(b0, b1, b2), rest);
    Sextets(b0, b1, b2);
  }

  lemma OneBack(b0: Byte)
    ensures Unpack([Six0(b0), Six1(b0, 0)]) == [b0]
  {
    Sextets(b0, 0, 0);
  }

  lemma TwoBack(b0: Byte, b1: Byte)
    ensures Unpack([Six0(b0), Six1(b0, b1), Six2(b1, 0)]) == [b0, b1]
  {
    Sextets(b0, b1, 0);
  }

  lemma {:induction false} UnpackPack(bytes: seq<Byte>)
    ensures Unpack(Pack(bytes)) == bytes
  {
    if |bytes| == 1 {
      OneBack(bytes[0]);
    } else if |bytes| == 2 {
      TwoBack(bytes[0], bytes[1]);
    } else if |bytes| >= 3 {
      UnpackPack(bytes[3..]);
      FourBack(bytes[0], bytes[1], bytes[2], Pack(bytes[3..]));
    }
  }

  /** The 24 bits of three bytes, and of four sextets, as one number. */
  function Bits24(b0: Byte, b1: Byte, b2: Byte): int { b0 * 65536 + b1 * 256 + b2 }

  function Sextets24(v0: Sextet, v1: Sextet, v2: Sextet, v3: Sextet): int { v0 * 262144 + v1 * 4096 + v2 * 64 + v3 }

  lemma FourKeepsBits(b0: Byte, b1: Byte, b2: Byte)
    ensures Sextets24(Six0(b0), Six1(b0, b1), Six2(b1, b2), Six3(b2)) == Bits24(b0, b1, b2)
  {}

  /** The group of sextets number i holds the bits of the group of bytes number i, zeros after the last byte. */
  ghost predicate SameBits(bytes: seq<Byte>, vs: seq<Sextet>, i: nat) {
    var b, v := 3 * i, 4 * i;
    if |bytes| >= b + 3 then
      |vs| >= v + 4 && Sextets24(vs[v], vs[v + 1], vs[v + 2], vs[v + 3]) == Bits24(bytes[b], bytes[b + 1], bytes[b + 2])
    else if |bytes| == b + 2 then
      |vs| == v + 3 && Sextets24(vs[v], vs[v + 1], vs[v + 2], 0) == Bits24(bytes[b], bytes[b + 1], 0)
    else if |bytes| == b + 1 then
      |vs| == v + 2 && Sextets24(vs[v], vs[v + 1], 0, 0) == Bits24(bytes[b], 0, 0)
    else |bytes| == b ==> |vs| == v
  }

  /** Packing is base 64 as section 4 of RFC 4648 has it: every group keeps its bits, most significant first. */
  lemma {:induction false} PackKeepsBits(bytes: seq<Byte>, i: nat)
    ensures SameBits(bytes, Pack(bytes), i)
  {
    if |bytes| >= 3 {
      FourKeepsBits(bytes[0], bytes[1], bytes[2]);
      var rest := bytes[3..];
      assert Pack(bytes)[4..] == Pack(rest);
      if i > 0 {
        PackKeepsBits(rest, i - 1);
      }
    } else if |bytes| == 2 {
      FourKeepsBits(bytes[0], bytes[1], 0);
    } else if |bytes| == 1 {
      FourKeepsBits(bytes[0], 0, 0);
    }
  }

  // ----- base64url with padding -----

  function Letters(vs: seq<Sextet>): (s: string)
    ensures |s| == |vs|
  {
    seq(|vs|, i requires 0 <= i < |vs| => Letter(vs[i]))
  }

  predicate AllLetters(s: string) {
    forall i :: 0 <= i < |s| ==> ValueOf(s[i]) >= 0
  }

  function Values(s: string): seq<Sextet>
    requires AllLetters(s)
  {
    seq(|s|, i requires 0 <= i < |s| => ValueOf(s[i]))
  }

  function Repeat(c: char, n: nat): string {
    seq(n, _ => c)
  }

  /** -length % 4 */
  function PadLength(length: int): nat {
    -length % 4
  }

  /** s + "=" * (-len(s) % 4) */
  function Padded(s: string): string {
    s + Repeat('=', PadLength(|s|))
  }

  /** rstrip("=") */
  function Unpadded(s: string): string {
    if s != "" && s[|s| - 1] == '=' then Unpadded(s[..|s| - 1]) else s
  }

  function Encode(bytes: seq<Byte>): string {
    Padded(Letters(Pack(bytes)))
  }

  datatype Error = BadRequest

  function Decode(s: string): Result<seq<Byte>, Error> {
    var body := Unpadded(s);
    if !AllLetters(body) || !WholeBytes(|body|) || s != Padded(body) then Err(BadRequest)
    else Ok(Unpack(Values(body)))
  }

  lemma ValuesOfLetters(vs: seq<Sextet>)
    ensures AllLetters(Letters(vs)) && Values(Letters(vs)) == vs
  {
    forall i | 0 <= i < |vs| ensures ValueOf(Letters(vs)[i]) == vs[i] {
      LetterValue(vs[i]);
    }
  }

  lemma {:induction false} UnpaddedLetters(s: string, n: nat)
    requires AllLetters(s)
    ensures Unpadded(s + Repeat('=', n)) == s
  {
    var t := s + Repeat('=', n);
    if n == 0 {
      assert t == s;
      assert s != "" ==> ValueOf(s[|s| - 1]) >= 0;
    } else {
      assert t[..|t| - 1] == s + Repeat('=', n - 1);
      UnpaddedLetters(s, n - 1);
    }
  }

  /**
    For every byte string: the padding can be stripped and restored from the length alone, and
    the restored text decodes to the original.
  */
  lemma PaddingRestored(bytes: seq<Byte>)
    ensures AllLetters(Unpadded(Encode(bytes)))
    ensures Padded(Unpadded(Encode(bytes))) == Encode(bytes)
    ensures Decode(Padded(Unpadded(Encode(bytes)))) == Ok(bytes)
  {
    var text := Letters(Pack(bytes));
    ValuesOfLetters(Pack(bytes));
    UnpaddedLetters(text, PadLength(|text|));
    PackedWhole(bytes);
    UnpackPack(bytes);
  }

  /** The padding is the least that makes the length a multiple of four. */
  lemma PadLengthExact(length: nat, n: nat)
    ensures PadLength(length) == n <==> n < 4 && (length + n) % 4 == 0
  {}

  /** Test vectors of section 10 of RFC 4648. */
  lemma TestVectors()
    ensures Encode([102]) == "Zg==" && Encode([102, 111]) == "Zm8=" && Encode([102, 111, 111]) == "Zm9v"
  {
    assert Pack([102]) == [25, 32] && Pack([102, 111]) == [25, 38, 60];
    assert Pack([102, 111, 111]) == Four(102, 111, 111) + Pack([]) == [25, 38, 61, 47];
    Paddings();
  }

  lemma Paddings()
    ensures Repeat('=', 0) == "" && Repeat('=', 1) == "=" && Repeat('=', 2) == "=="
  {}

  ghost predicate PaddedLetters(s: string, body: string) {
    AllLetters(body) && |body| % 4 != 1 && (s == body || s == body + "=" || s == body + "==")
  }

  lemma DecodePadded(body: string)
    requires AllLetters(body) && |body| % 4 != 1
    ensures Decode(Padded(body)).Ok?
  {
    UnpaddedLetters(body, PadLength(|body|));
  }

  lemma PaddedDecodes(s: string, body: string)
    requires |s| % 4 == 0 && PaddedLetters(s, body)
    ensures Decode(s).Ok?
  {
    PadLengthExact(|body|, |s| - |body|);
    Paddings();
    assert s == Padded(body);
    DecodePadded(body);
  }

  lemma PadAtMostTwo(length: nat)
    requires WholeBytes(length)
    ensures PadLength(length) <= 2 && (length + PadLength(length)) % 4 == 0
  {
    var q, r := length / 4, length % 4;
    assert length == 4 * q + r;
    PadLengthExact(length, if r == 0 then 0 else 4 - r);
  }

  lemma PaddedIsLetters(body: string)
    requires AllLetters(body) && WholeBytes(|body|)
    ensures |Padded(body)| % 4 == 0 && PaddedLetters(Padded(body), body)
  {
    PadAtMostTwo(|body|);
    Paddings();
    assert body + "" == body;
  }

  lemma DecodedIsPadded(s: string)
    requires Decode(s).Ok?
    ensures |s| % 4 == 0 && PaddedLetters(s, Unpadded(s))
  {
    PaddedIsLetters(Unpadded(s));
  }

  /** A text is decoded exactly when it is letters, not one alone in the last group, padded to whole groups. */
  lemma DecodeAccepts(s: string)
    ensures Decode(s).Ok? <==> |s| % 4 == 0 && exists body :: PaddedLetters(s, body)
  {
    if Decode(s).Ok? {
      DecodedIsPadded(s);
    }
    if body :| |s| % 4 == 0 && PaddedLetters(s, body) {
      PaddedDecodes(s, body);
    }
  }

  // ----- Cursors -----

  function EncodeCursor(printed: (int, int) -> seq<Byte>, createdAt: int, id: int): string {
    Unpadded(Encode(printed(createdAt, id)))
  }

  function DecodeCursor(parsed: seq<Byte> -> Option<(int, int)>, cursor: string): Result<(int, int), Error> {
    match Decode(Padded(cursor))
    case Err(e) => Err(e)
    case Ok(bytes) => match parsed(bytes)
      case None => Err(BadRequest)
      case Some(pair) => Ok(pair)
  }

  /** A cursor decodes to what it was made from, and is made of URL-safe letters only. */
  lemma CursorRoundTrip(printed: (int, int) -> seq<Byte>, parsed: seq<Byte> -> Option<(int, int)>, createdAt: int,
                        id: int)
    requires parsed(printed(createdAt, id)) == Some((createdAt, id))
    ensures DecodeCursor(parsed, EncodeCursor(printed, createdAt, id)) == Ok((createdAt, id))
    ensures AllLetters(EncodeCursor(printed, createdAt, id))
  {
    PaddingRestored(printed(createdAt, id));
  }

  /** A cursor decodes only to what its bytes are parsed as. */
  lemma CursorSound(parsed: seq<Byte> -> Option<(int, int)>, cursor: string)
    ensures match DecodeCursor(parsed, cursor)
            case Ok(pair) => exists bytes :: Decode(Padded(cursor)) == Ok(bytes) && parsed(bytes) == Some(pair)
            case Err(_) => forall bytes :: Decode(Padded(cursor)) == Ok(bytes) ==> parsed(bytes) == None
  {}

  // ----- Page sizes -----

  const DEFAULT_LIMIT := 50
  const MAX_LIMIT := 200

  /** clamp_limit: a page size from 1 to 200 is kept, any other is moved to the nearer end, and 50 is the default. */
  function ClampLimit(parseInt: string -> Option<int>, raw: Option<string>): (r: Result<int, Error>)
    ensures r.Ok? ==> 1 <= r.value <= 200
    ensures r.Err? <==> raw.Some? && parseInt(raw.value).None?
    ensures raw.None? ==> r == Ok(50)
    ensures raw.Some? && r.Ok? ==>
              var v := parseInt(raw.value).value;
              && (1 <= v <= 200 ==> r.value == v)
              && (v < 1 ==> r.value == 1)
              && (v > 200 ==> r.value == 200)
  {
    if raw.None? then Ok(DEFAULT_LIMIT)
    else match parseInt(raw.value)
      case None => Err(BadRequest)
      case Some(v) =>
        var capped := if v < MAX_LIMIT then v else MAX_LIMIT;
        Ok(if capped > 1 then capped else 1)
  }
}
