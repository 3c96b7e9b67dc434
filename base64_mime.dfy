/**
 * The byte-to-text step of convert_to_b64: Python's base64.encodestring,
 * which is the MIME base64 content-transfer-encoding of section 6.8 of
 * RFC 2045 over the alphabet of section 4 of RFC 4648. The input is cut into
 * chunks of 57 bytes; each chunk is encoded to at most 76 characters and
 * followed by a line break. The decoder is the inverse: line breaks are
 * discarded, then each group of four characters gives back up to three bytes.
 */
module Base64Mime {
  import opened Results
  import opened Text

  newtype byte = x: int | 0 <= x < 256

  /** Padding character of section 4 of RFC 4648. */
  const Pad: char := '='

  /** Bytes per encoded line: 76 characters carry 76 / 4 * 3 = 57 bytes. */
  const LineBytes: nat := 57

  /** Maximum length of an encoded line, excluding its line break (section 6.8 of RFC 2045). */
  const MaxLineLength: nat := 76

  /** The character for a 6-bit value, in the order of Table 1 of RFC 4648. */
  function SextetChar(v: int): (c: char)
    requires 0 <= v < 64
  {
    if v < 26 then ('A' as int + v) as char
    else if v < 52 then ('a' as int + (v - 26)) as char
    else if v < 62 then ('0' as int + (v - 52)) as char
    else if v == 62 then '+'
    else '/'
  }

  /** The 6-bit value of an alphabet character; None for every other character. */
  function CharSextet(c: char): (r: Option<int>)
    ensures r.Some? ==> 0 <= r.value < 64
  {
    if 'A' <= c <= 'Z' then Some(c as int - 'A' as int)
    else if 'a' <= c <= 'z' then Some(c as int - 'a' as int + 26)
    else if '0' <= c <= '9' then Some(c as int - '0' as int + 52)
    else if c == '+' then Some(62)
    else if c == '/' then Some(63)
    else None
  }

  lemma SextetInverse(v: int)
    requires 0 <= v < 64
    ensures CharSextet(SextetChar(v)) == Some(v)
  {
  }

  /** A character the encoder can emit inside a line: an alphabet character or the pad. */
  predicate IsEncodedChar(c: char)
  {
    CharSextet(c).Some? || c == Pad
  }

  /** A character that can occur in an encodestring result. */
  predicate IsPayloadChar(c: char)
  {
    IsEncodedChar(c) || c == '\n'
  }

  /** Neither quote nor backslash belongs to the payload alphabet. */
  lemma PayloadCharIsNotQuote(c: char)
    requires IsPayloadChar(c)
    ensures c != '"' && c != '\\' && c != '\''
  {
  }

  /**
   * Encodes one group of one to three bytes as four characters; a group of
   * two bytes ends in one pad, a group of one byte in two (section 4 of RFC 4648).
   */
  function EncodeGroup(g: seq<byte>): (q: string)
    requires 1 <= |g| <= 3
    ensures |q| == 4
    ensures forall i :: 0 <= i < |q| ==> IsEncodedChar(q[i])
  {
    var b0 := g[0] as int;
    var b1 := if |g| > 1 then g[1] as int else 0;
    var b2 := if |g| > 2 then g[2] as int else 0;
    [SextetChar(b0 / 4), SextetChar(b0 % 4 * 16 + b1 / 16)]
    + [if |g| > 1 then SextetChar(b1 % 16 * 4 + b2 / 64) else Pad]
    + [if |g| > 2 then SextetChar(b2 % 64) else Pad]
  }

  /**
   * Decodes one group of four characters. Padding is accepted only in the
   * final group of the text (last).
   */
  function DecodeGroup(q: string, last: bool): (r: Option<seq<byte>>)
    requires |q| == 4
    ensures r.Some? ==> 1 <= |r.value| <= 3
  {
    var s0, s1, s2, s3 := CharSextet(q[0]), CharSextet(q[1]), CharSextet(q[2]), CharSextet(q[3]);
    if s0.None? || s1.None? then None
    else
      var b0 := (s0.value * 4 + s1.value / 16) as byte;
      if s2.Some? && s3.Some? then
        Some([b0, (s1.value % 16 * 16 + s2.value / 4) as byte, (s2.value % 4 * 64 + s3.value) as byte])
      else if last && s2.Some? && q[3] == Pad then
        Some([b0, (s1.value % 16 * 16 + s2.value / 4) as byte])
      else if last && q[2] == Pad && q[3] == Pad then
        Some([b0])
      else None
  }

  lemma GroupRoundTrip(g: seq<byte>, last: bool)
    requires 1 <= |g| <= 3
    requires |g| == 3 || last
    ensures DecodeGroup(EncodeGroup(g), last) == Some(g)
  {
    if |g| == 1 {
      GroupRoundTrip1(g);
    } else if |g| == 2 {
      GroupRoundTrip2(g);
    } else {
      GroupRoundTrip3(g, last);
    }
  }

  lemma GroupRoundTrip1(g: seq<byte>)
    requires |g| == 1
    ensures DecodeGroup(EncodeGroup(g), true) == Some(g)
  {
    var b0 := g[0] as int;
    var q := EncodeGroup(g);
    LeadingSextets(q, b0, 0);
    assert CharSextet(q[2]) == None && q[2] == Pad && q[3] == Pad;
    assert [b0 as byte] == g;
  }

  lemma GroupRoundTrip2(g: seq<byte>)
    requires |g| == 2
    ensures DecodeGroup(EncodeGroup(g), true) == Some(g)
  {
    var b0, b1 := g[0] as int, g[1] as int;
    var q := EncodeGroup(g);
    LeadingSextets(q, b0, b1);
    MiddleSextet(q, b0, b1, 0);
    assert CharSextet(q[3]) == None && q[3] == Pad;
    assert [b0 as byte, b1 as byte] == g;
  }

  lemma GroupRoundTrip3(g: seq<byte>, last: bool)
    requires |g| == 3
    ensures DecodeGroup(EncodeGroup(g), last) == Some(g)
  {
    var b0, b1, b2 := g[0] as int, g[1] as int, g[2] as int;
    var q := EncodeGroup(g);
    LeadingSextets(q, b0, b1);
    MiddleSextet(q, b0, b1, b2);
    SextetInverse(b2 % 64);
    assert CharSextet(q[3]) == Some(b2 % 64);
    assert (b1 % 16 * 4 + b2 / 64) % 4 * 64 + b2 % 64 == b2;
    assert [b0 as byte, b1 as byte, b2 as byte] == g;
  }

  /** The third character of a group of two or three bytes decodes to the second byte. */
  lemma MiddleSextet(q: string, b0: int, b1: int, b2: int)
    requires 0 <= b0 < 256 && 0 <= b1 < 256 && 0 <= b2 < 256 && |q| == 4
    requires q[2] == SextetChar(b1 % 16 * 4 + b2 / 64)
    ensures CharSextet(q[2]) == Some(b1 % 16 * 4 + b2 / 64)
    ensures (b0 % 4 * 16 + b1 / 16) % 16 * 16 + (b1 % 16 * 4 + b2 / 64) / 4 == b1
  {
    SextetInverse(b1 % 16 * 4 + b2 / 64);
    assert (b0 % 4 * 16 + b1 / 16) % 16 == b1 / 16;
    assert (b1 % 16 * 4 + b2 / 64) / 4 == b1 % 16;
  }

  /** The first two characters of a group decode to the first byte. */
  lemma LeadingSextets(q: string, b0: int, b1: int)
    requires 0 <= b0 < 256 && 0 <= b1 < 256 && |q| == 4
    requires q[0] == SextetChar(b0 / 4) && q[1] == SextetChar(b0 % 4 * 16 + b1 / 16)
    ensures CharSextet(q[0]) == Some(b0 / 4)
    ensures CharSextet(q[1]) == Some(b0 % 4 * 16 + b1 / 16)
    ensures (b0 / 4) * 4 + (b0 % 4 * 16 + b1 / 16) / 16 == b0
  {
    SextetInverse(b0 / 4);
    SextetInverse(b0 % 4 * 16 + b1 / 16);
  }

  /** RFC 4648 base64 of b, without line breaks: four characters per started group of three bytes. */
  function Encode(b: seq<byte>): (s: string)
    ensures |s| == 4 * ((|b| + 2) / 3)
    decreases |b|
  {
    if |b| == 0 then []
    else if |b| <= 3 then EncodeGroup(b)
    else EncodeGroup(b[..3]) + Encode(b[3..])
  }

  /** Encode emits only alphabet characters and pads. */
  lemma {:induction false} EncodeAlphabet(b: seq<byte>)
    ensures forall i :: 0 <= i < |Encode(b)| ==> IsEncodedChar(Encode(b)[i])
    decreases |b|
  {
    if |b| > 3 {
      EncodeAlphabet(b[3..]);
      var g, r := EncodeGroup(b[..3]), Encode(b[3..]);
      forall i | 0 <= i < |g + r| ensures IsEncodedChar((g + r)[i]) {
        if i >= |g| {
          assert (g + r)[i] == r[i - |g|];
        }
      }
    }
  }

  /** The inverse of Encode: None unless s is a whole number of valid groups. */
  function Decode(s: string): (r: Option<seq<byte>>)
    decreases |s|
  {
    if |s| == 0 then Some([])
    else if |s| < 4 then None
    else match DecodeGroup(s[..4], |s| == 4)
      case None => None
      case Some(g) =>
        match Decode(s[4..])
        case None => None
        case Some(rest) => Some(g + rest)
  }

  lemma {:induction false} DecodeEncode(b: seq<byte>)
    ensures Decode(Encode(b)) == Some(b)
    decreases |b|
  {
    var s := Encode(b);
    if |b| == 0 {
    } else if |b| <= 3 {
      GroupRoundTrip(b, true);
      assert s[..4] == s;
      assert s[4..] == [];
      assert b + [] == b;
    } else {
      var g, rest := b[..3], b[3..];
      assert s == EncodeGroup(g) + Encode(rest);
      assert |Encode(rest)| >= 4;
      GroupRoundTrip(g, false);
      assert s[..4] == EncodeGroup(g);
      assert s[4..] == Encode(rest);
      DecodeEncode(rest);
      assert g + rest == b;
    }
  }

  /** Encoding is compositional at group boundaries. */
  lemma {:induction false} EncodeAppend(a: seq<byte>, c: seq<byte>)
    requires |a| % 3 == 0
    ensures Encode(a + c) == Encode(a) + Encode(c)
    decreases |a|
  {
    if |a| == 0 {
      assert a + c == c;
    } else if |c| == 0 {
      assert a + c == a;
    } else {
      var g, r := a[..3], a[3..];
      assert a == g + r;
      EncodeAppend(r, c);
      Regroup(g, r, c);
      EncodeFront(g, r + c);
      EncodeFront(g, r);
      Regroup(EncodeGroup(g), Encode(r), Encode(c));
    }
  }

  /** A full group followed by more bytes encodes as that group's four characters, then the rest. */
  lemma EncodeFront(g: seq<byte>, rest: seq<byte>)
    requires |g| == 3
    ensures Encode(g + rest) == EncodeGroup(g) + Encode(rest)
  {
    if |rest| == 0 {
      assert g + rest == g;
    } else {
      assert (g + rest)[..3] == g;
      assert (g + rest)[3..] == rest;
    }
  }

  /**
   * base64.encodestring(b) as text: every chunk of 57 bytes (the last
   * possibly shorter) encoded on a line of its own and followed by "\n".
   */
  function EncodeMime(b: seq<byte>): (s: string)
    ensures |s| == 0 <==> |b| == 0
    ensures |s| > 0 ==> s[|s| - 1] == '\n'
    decreases |b|
  {
    if |b| == 0 then []
    else
      var n := if |b| < LineBytes then |b| else LineBytes;
      Encode(b[..n]) + "\n" + EncodeMime(b[n..])
  }

  /** A strict base64 decoding of a payload, line breaks discarded as section 6.8 of RFC 2045 requires. */
  function DecodeMime(s: string): (r: Option<seq<byte>>)
  {
    Decode(RemoveNewlines(s))
  }

  /** Dropping the line breaks of an encodestring result gives the unbroken base64 of the same bytes. */
  lemma {:induction false} MimeWithoutBreaks(b: seq<byte>)
    ensures RemoveNewlines(EncodeMime(b)) == Encode(b)
    decreases |b|
  {
    if |b| > 0 {
      var n := if |b| < LineBytes then |b| else LineBytes;
      var chunk, rest := b[..n], b[n..];
      FirstLineWithoutBreak(chunk, EncodeMime(rest));
      MimeWithoutBreaks(rest);
      EncodeChunks(chunk, rest);
      assert chunk + rest == b;
    }
  }

  /** Dropping the line breaks after the first encoded line leaves that line in front. */
  lemma FirstLineWithoutBreak(chunk: seq<byte>, tail: string)
    ensures RemoveNewlines(Encode(chunk) + "\n" + tail) == Encode(chunk) + RemoveNewlines(tail)
  {
    var line := Encode(chunk);
    assert line + "\n" + tail == line + ("\n" + tail);
    EncodeHasNoBreak(chunk);
    RemoveNewlinesAppend(line, "\n" + tail);
    RemoveNewlinesNoop(line);
    assert ("\n" + tail)[1..] == tail;
  }

  lemma EncodeHasNoBreak(b: seq<byte>)
    ensures '\n' !in Encode(b)
  {
    var s := Encode(b);
    EncodeAlphabet(b);
    forall i | 0 <= i < |s| ensures s[i] != '\n' {
      assert IsEncodedChar(s[i]);
    }
  }

  /** A full chunk followed by more bytes encodes as the chunk's line followed by the rest's encoding. */
  lemma EncodeChunks(chunk: seq<byte>, rest: seq<byte>)
    requires |rest| == 0 || |chunk| == LineBytes
    ensures Encode(chunk + rest) == Encode(chunk) + Encode(rest)
  {
    if |rest| == 0 {
      assert chunk + rest == chunk;
    } else {
      EncodeAppend(chunk, rest);
    }
  }

  /** Round trip: decoding the payload gives back exactly the encoded bytes. */
  lemma MimeRoundTrip(b: seq<byte>)
    ensures DecodeMime(EncodeMime(b)) == Some(b)
  {
    MimeWithoutBreaks(b);
    DecodeEncode(b);
  }

  /**
   * Line layout of section 6.8 of RFC 2045: one line per started chunk of 57
   * bytes, every line non-empty and at most 76 characters long, and every line
   * but the last exactly 76 characters long.
   */
  lemma {:induction false} MimeLayout(b: seq<byte>)
    ensures |Lines(EncodeMime(b))| == (|b| + LineBytes - 1) / LineBytes
    ensures forall k :: 0 <= k < |Lines(EncodeMime(b))| ==>
      0 < |Lines(EncodeMime(b))[k]| <= MaxLineLength &&
      (k + 1 < |Lines(EncodeMime(b))| ==> |Lines(EncodeMime(b))[k]| == MaxLineLength)
    decreases |b|
  {
    if |b| > 0 {
      var n := if |b| < LineBytes then |b| else LineBytes;
      var chunk, rest := b[..n], b[n..];
      var line := Encode(chunk);
      EncodeHasNoBreak(chunk);
      LinesCons(line, EncodeMime(rest));
      MimeLayout(rest);
      ChunkLine(chunk);
      ChunkCount(|b|, n);
      LayoutCons(line, Lines(EncodeMime(rest)));
    }
  }

  /** A chunk of at most 57 bytes fills one line of at most 76 characters, exactly 76 for a full chunk. */
  lemma ChunkLine(chunk: seq<byte>)
    requires 0 < |chunk| <= LineBytes
    ensures 0 < |Encode(chunk)| <= MaxLineLength
    ensures |chunk| == LineBytes ==> |Encode(chunk)| == MaxLineLength
  {
  }

  /** Taking one chunk off the front leaves one line fewer to write. */
  lemma ChunkCount(len: nat, n: nat)
    requires len > 0 && n == (if len < LineBytes then len else LineBytes)
    ensures (len + LineBytes - 1) / LineBytes == 1 + (len - n + LineBytes - 1) / LineBytes
  {
  }

  /** A line in front of a well laid-out sequence of lines keeps the layout, if it is full whenever lines follow. */
  lemma LayoutCons(line: string, ls: seq<string>)
    requires 0 < |line| <= MaxLineLength
    requires |ls| > 0 ==> |line| == MaxLineLength
    requires forall k :: 0 <= k < |ls| ==>
      0 < |ls[k]| <= MaxLineLength && (k + 1 < |ls| ==> |ls[k]| == MaxLineLength)
    ensures forall k :: 0 <= k < |[line] + ls| ==>
      0 < |([line] + ls)[k]| <= MaxLineLength && (k + 1 < |[line] + ls| ==> |([line] + ls)[k]| == MaxLineLength)
  {
    var xs := [line] + ls;
    forall k | 0 <= k < |xs|
      ensures 0 < |xs[k]| <= MaxLineLength && (k + 1 < |xs| ==> |xs[k]| == MaxLineLength)
    {
      if k > 0 {
        assert xs[k] == ls[k - 1];
      }
    }
  }

  /** An encodestring result holds only alphabet characters, pads and line breaks. */
  lemma {:induction false} MimeAlphabet(b: seq<byte>)
    ensures forall i :: 0 <= i < |EncodeMime(b)| ==> IsPayloadChar(EncodeMime(b)[i])
    decreases |b|
  {
    if |b| > 0 {
      var n := if |b| < LineBytes then |b| else LineBytes;
      var line, tail := Encode(b[..n]), EncodeMime(b[n..]);
      EncodeAlphabet(b[..n]);
      MimeAlphabet(b[n..]);
      var s := line + "\n" + tail;
      forall i | 0 <= i < |s| ensures IsPayloadChar(s[i]) {
        if i < |line| {
          assert s[i] == line[i];
        } else if i > |line| {
          assert s[i] == tail[i - |line| - 1];
        }
      }
    }
  }

  /** Corollary for embedding: an encodestring result contains no quote and no backslash. */
  lemma MimeHasNoQuote(b: seq<byte>)
    ensures '"' !in EncodeMime(b) && '\\' !in EncodeMime(b)
  {
    var s := EncodeMime(b);
    MimeAlphabet(b);
    forall i | 0 <= i < |s| ensures s[i] != '"' && s[i] != '\\' {
      PayloadCharIsNotQuote(s[i]);
    }
  }
}
