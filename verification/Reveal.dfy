/** Decoding standard base64 (section 4 of RFC 4648), against an independently written encoder. Text is ASCII. */
module Reveal {
  import opened Wrappers

  type Byte = x: int | 0 <= x < 256

  datatype RevealError = Truncated | InvalidByte

  predicate IsIgnored(c: char) {
    c == '=' || c == ' ' || c == '\t' || c == '\n' || c as int == 0x0C || c == '\r'
  }

  /** The characters that carry data: padding and ASCII whitespace are dropped wherever they stand. */
  function Clean(s: string): string {
    if s == "" then "" else Clean(s[..|s| - 1]) + (if IsIgnored(s[|s| - 1]) then "" else [s[|s| - 1]])
  }

  /** The position of a character in the alphabet. */
  function Sextet(c: char): (v: Option<nat>)
    ensures v.Some? ==> v.value < 64
  {
    if 'A' <= c <= 'Z' then Some(c as int - 'A' as int)
    else if 'a' <= c <= 'z' then Some(c as int - 'a' as int + 26)
    else if '0' <= c <= '9' then Some(c as int - '0' as int + 52)
    else if c == '+' then Some(62)
    else if c == '/' then Some(63)
    else None
  }

  // ---------------------------------------------------------------- the encoder

  function Letter(v: nat): char
    requires v < 64
  {
    if v < 26 then ('A' as int + v) as char
    else if v < 52 then ('a' as int + (v - 26)) as char
    else if v < 62 then ('0' as int + (v - 52)) as char
    else if v == 62 then '+' else '/'
  }

  lemma LetterRoundTrip(v: nat)
    requires v < 64
    ensures Sextet(Letter(v)) == Some(v) && !IsIgnored(Letter(v))
  {
  }

  function ByteAt(b: seq<Byte>, i: nat): Byte { if i < |b| then b[i] else 0 }

  /** A group of one to three bytes as its significant letters. */
  function EncodeGroup(b: seq<Byte>): (s: string)
    requires 1 <= |b| <= 3
    ensures |s| == |b| + 1
  {
    var b0, b1, b2 := ByteAt(b, 0), ByteAt(b, 1), ByteAt(b, 2);
    [Letter(b0 / 4), Letter(b0 % 4 * 16 + b1 / 16), Letter(b1 % 16 * 4 + b2 / 64), Letter(b2 % 64)][..|b| + 1]
  }

  /** The encoding without padding. */
  function Encode(b: seq<Byte>): string {
    if b == [] then ""
    else if |b| <= 3 then EncodeGroup(b)
    else EncodeGroup(b[..3]) + Encode(b[3..])
  }

  /** The encoding padded to a multiple of four characters. */
  function EncodePadded(b: seq<Byte>): string {
    Encode(b) + (if |b| % 3 == 1 then "==" else if |b| % 3 == 2 then "=" else "")
  }

  // ---------------------------------------------------------------- the decoder

  /** The number the sextets of a chunk spell, most significant first. */
  function ChunkValue(chunk: string): Option<nat> {
    if chunk == "" then Some(0)
    else
      var n := |chunk| - 1;
      match (ChunkValue(chunk[..n]), Sextet(chunk[n]))
      case (Some(high), Some(v)) => Some(high * 64 + v)
      case _ => None
  }

  function Shifted(value: nat, n: nat): nat {
    if n == 2 then value * 4096 else if n == 3 then value * 64 else value
  }

  /** The three bytes of a 24-bit buffer. */
  function BufferBytes(buf: nat): (bytes: seq<Byte>)
    ensures |bytes| == 3
  {
    [buf / 65536 % 256, buf / 256 % 256, buf % 256]
  }

  /** The bytes a chunk of two to four letters stands for. */
  function DecodeChunk(chunk: string): Result<seq<Byte>, RevealError> {
    if |chunk| < 2 then Err(Truncated)
    else
      match ChunkValue(chunk)
      case None => Err(InvalidByte)
      case Some(value) =>
        Ok(BufferBytes(Shifted(value, |chunk|))[..if |chunk| < 4 then |chunk| - 1 else 3])
  }

  function Decode(clean: string): Result<seq<Byte>, RevealError> {
    if clean == "" then Ok([])
    else
      var n := if |clean| < 4 then |clean| else 4;
      match DecodeChunk(clean[..n])
      case Err(e) => Err(e)
      case Ok(bytes) =>
        match Decode(clean[n..])
        case Err(e) => Err(e)
        case Ok(rest) => Ok(bytes + rest)
  }

  // ---------------------------------------------------------------- round trips

  lemma ChunkValueOf(chunk: string)
    requires 2 <= |chunk| <= 4 && forall i :: 0 <= i < |chunk| ==> Sextet(chunk[i]).Some?
    ensures ChunkValue(chunk) == Some(
              var v := seq(|chunk|, i requires 0 <= i < |chunk| => Sextet(chunk[i]).value);
              if |chunk| == 2 then v[0] * 64 + v[1]
              else if |chunk| == 3 then v[0] * 4096 + v[1] * 64 + v[2]
              else v[0] * 262144 + v[1] * 4096 + v[2] * 64 + v[3])
  {
    hide ChunkValue, Sextet;
    ChunkOne(chunk[0]);
    assert chunk[..1] == [chunk[0]];
    ChunkSnoc(chunk[..1], chunk[1]);
    assert chunk[..2] == chunk[..1] + [chunk[1]];
    assert chunk[..|chunk|] == chunk;
    if |chunk| >= 3 {
      ChunkSnoc(chunk[..2], chunk[2]);
      assert chunk[..3] == chunk[..2] + [chunk[2]];
    }
    if |chunk| == 4 {
      ChunkSnoc(chunk[..3], chunk[3]);
      assert chunk[..4] == chunk[..3] + [chunk[3]];
    }
  }

  lemma ChunkOne(c: char)
    requires Sextet(c).Some?
    ensures ChunkValue([c]) == Some(Sextet(c).value)
  {
    hide Sextet;
    assert [c][..0] == "" && ChunkValue("") == Some(0);
  }

  lemma ChunkSnoc(chunk: string, c: char)
    requires ChunkValue(chunk).Some? && Sextet(c).Some?
    ensures ChunkValue(chunk + [c]) == Some(ChunkValue(chunk).value * 64 + Sextet(c).value)
  {
    assert (chunk + [c])[..|chunk|] == chunk;
  }

  /** The sextets of a group, in order, are its bits. */
  lemma GroupSextets(b: seq<Byte>)
    requires 1 <= |b| <= 3
    ensures var s, b0, b1, b2 := EncodeGroup(b), ByteAt(b, 0), ByteAt(b, 1), ByteAt(b, 2);
            && Sextet(s[0]) == Some(b0 / 4) && Sextet(s[1]) == Some(b0 % 4 * 16 + b1 / 16)
            && (|b| >= 2 ==> Sextet(s[2]) == Some(b1 % 16 * 4 + b2 / 64))
            && (|b| == 3 ==> Sextet(s[3]) == Some(b2 % 64))
  {
    hide Letter, Sextet;
    var b0, b1, b2 := ByteAt(b, 0), ByteAt(b, 1), ByteAt(b, 2);
    LetterRoundTrip(b0 / 4);
    LetterRoundTrip(b0 % 4 * 16 + b1 / 16);
    LetterRoundTrip(b1 % 16 * 4 + b2 / 64);
    LetterRoundTrip(b2 % 64);
  }

  /** All three final-group cases: a group decodes to its bytes. */
  lemma GroupRoundTrip(b: seq<Byte>)
    requires 1 <= |b| <= 3
    ensures DecodeChunk(EncodeGroup(b)) == Ok(b)
  {
    hide EncodeGroup, ChunkValue, Sextet;
    var s := EncodeGroup(b);
    var b0: int, b1: int, b2: int := ByteAt(b, 0), ByteAt(b, 1), ByteAt(b, 2);
    GroupSextets(b);
    ChunkValueOf(s);
    var buf := Shifted(ChunkValue(s).value, |s|);
    assert buf == b0 * 65536 + b1 * 256 + b2 by { Regroup(b0, b1, b2); }
    BytesOf(b0, b1, b2);
    assert [b0, b1, b2][..|b|] == b;
  }

  lemma Regroup(b0: Byte, b1: Byte, b2: Byte)
    ensures b0 / 4 * 262144 + (b0 % 4 * 16 + b1 / 16) * 4096 + (b1 % 16 * 4 + b2 / 64) * 64 + b2 % 64 == b0 * 65536
              + b1 * 256 + b2
  {
  }

  lemma BytesOf(b0: Byte, b1: Byte, b2: Byte)
    ensures var buf := b0 * 65536 + b1 * 256 + b2; buf / 65536 % 256 == b0 && buf / 256 % 256 == b1 && buf % 256 == b2
  {
    var buf, high := b0 * 65536 + b1 * 256 + b2, b0 * 256 + b1;
    assert buf == high * 256 + b2;
    LastByte(high, b2);
    LastByte(b0, b1);
    assert buf == b0 * 65536 + (b1 * 256 + b2);
  }

  lemma LastByte(high: nat, low: Byte)
    ensures (high * 256 + low) / 256 == high && (high * 256 + low) % 256 == low
  {
  }

  lemma {:induction false} EncodeRoundTrip(b: seq<Byte>)
    ensures Decode(Encode(b)) == Ok(b)
    decreases |b|
  {
    if b == [] {
    } else if |b| <= 3 {
      GroupRoundTrip(b);
      var s := EncodeGroup(b);
      assert s[..|s|] == s && s[|s|..] == "";
      assert b + [] == b;
    } else {
      GroupRoundTrip(b[..3]);
      EncodeRoundTrip(b[3..]);
      var group, rest := EncodeGroup(b[..3]), Encode(b[3..]);
      assert (group + rest)[..4] == group && (group + rest)[4..] == rest;
      assert b[..3] + b[3..] == b;
    }
  }

  lemma {:induction false} CleanAppend(a: string, b: string)
    ensures Clean(a + b) == Clean(a) + Clean(b)
  {
    if b == "" {
      assert a + b == a;
    } else {
      var n := |b| - 1;
      assert (a + b)[..|a + b| - 1] == a + b[..n];
      CleanAppend(a, b[..n]);
    }
  }

  /** Padding and whitespace may be inserted anywhere without changing what is decoded. */
  lemma InsertionIgnored(a: string, ignored: string, b: string)
    requires forall i :: 0 <= i < |ignored| ==> IsIgnored(ignored[i])
    ensures Clean(a + ignored + b) == Clean(a + b)
  {
    CleanAppend(a + ignored, b);
    CleanAppend(a, ignored);
    CleanAppend(a, b);
    AllIgnored(ignored);
    assert Clean(a) + "" == Clean(a);
    assert Clean(a + ignored) == Clean(a);
  }

  lemma {:induction false} AllIgnored(s: string)
    requires forall i :: 0 <= i < |s| ==> IsIgnored(s[i])
    ensures Clean(s) == ""
  {
    if s != "" { AllIgnored(s[..|s| - 1]); }
  }

  lemma {:induction false} NothingIgnored(s: string)
    requires forall i :: 0 <= i < |s| ==> !IsIgnored(s[i])
    ensures Clean(s) == s
  {
    if s != "" {
      NothingIgnored(s[..|s| - 1]);
      assert s == s[..|s| - 1] + [s[|s| - 1]];
    }
  }

  lemma {:induction false} EncodedHasNoIgnored(b: seq<Byte>)
    ensures forall i :: 0 <= i < |Encode(b)| ==> !IsIgnored(Encode(b)[i])
    decreases |b|
  {
    if b != [] {
      GroupHasNoIgnored(if |b| <= 3 then b else b[..3]);
      if |b| > 3 { EncodedHasNoIgnored(b[3..]); }
    }
  }

  lemma GroupHasNoIgnored(b: seq<Byte>)
    requires 1 <= |b| <= 3
    ensures forall i :: 0 <= i < |EncodeGroup(b)| ==> !IsIgnored(EncodeGroup(b)[i])
  {
    var b0, b1, b2 := ByteAt(b, 0), ByteAt(b, 1), ByteAt(b, 2);
    LetterRoundTrip(b0 / 4);
    LetterRoundTrip(b0 % 4 * 16 + b1 / 16);
    LetterRoundTrip(b1 % 16 * 4 + b2 / 64);
    LetterRoundTrip(b2 % 64);
  }

  lemma PaddingIgnored(s: string, padding: string)
    requires forall i :: 0 <= i < |padding| ==> padding[i] == '='
    ensures Clean(s + padding) == Clean(s)
  {
    hide Clean;
    CleanAppend(s, padding);
    AllIgnored(padding);
    assert Clean(s) + "" == Clean(s);
  }

  /** Every byte string is revealed from its encoding, padded or not. */
  lemma RevealInvertsEncode(b: seq<Byte>)
    ensures Decode(Clean(Encode(b))) == Ok(b) && Decode(Clean(EncodePadded(b))) == Ok(b)
  {
    hide Clean, Encode, Decode;
    EncodedHasNoIgnored(b);
    NothingIgnored(Encode(b));
    EncodeRoundTrip(b);
    PaddingIgnored(Encode(b), if |b| % 3 == 1 then "==" else if |b| % 3 == 2 then "=" else "");
  }

  predicate AllLetters(s: string) { forall i :: 0 <= i < |s| ==> Sextet(s[i]).Some? }

  /** Bytes in a text of `n` letters. */
  function DecodedLength(n: nat): nat { n / 4 * 3 + (if n % 4 == 0 then 0 else n % 4 - 1) }

  lemma LengthStep(n: nat)
    requires n >= 4
    ensures (n - 4) % 4 == n % 4 && DecodedLength(n) == 3 + DecodedLength(n - 4)
  {
    assert n == (n - 4) + 4;
    assert n / 4 == (n - 4) / 4 + 1;
  }

  lemma LengthShort(n: nat)
    requires 0 < n < 4
    ensures n % 4 == n && DecodedLength(n) == n - 1
  {
  }

  lemma LettersSplit(s: string, n: nat)
    requires n <= |s|
    ensures AllLetters(s) <==> AllLetters(s[..n]) && AllLetters(s[n..])
  {
    hide Sextet;
    if AllLetters(s[..n]) && AllLetters(s[n..]) {
      forall i | 0 <= i < |s| ensures Sextet(s[i]).Some? {
        assert s[i] == if i < n then s[..n][i] else s[n..][i - n];
      }
    }
  }

  /** A group decodes when it has two letters at least, and nothing but letters. */
  lemma ChunkDecodes(chunk: string)
    requires |chunk| <= 4
    ensures DecodeChunk(chunk).Ok? <==> |chunk| >= 2 && AllLetters(chunk)
    ensures DecodeChunk(chunk).Ok? ==> |DecodeChunk(chunk).value| == |chunk| - 1
  {
    hide ChunkValue, Sextet, BufferBytes, Shifted;
    ChunkDecodesExactly(chunk);
  }

  /** A text decodes group by group. */
  lemma DecodeSplits(clean: string)
    requires clean != ""
    ensures var n := if |clean| < 4 then |clean| else 4;
            && (Decode(clean).Ok? <==> DecodeChunk(clean[..n]).Ok? && Decode(clean[n..]).Ok?)
            && (Decode(clean).Ok? ==>
                |Decode(clean).value| == |DecodeChunk(clean[..n]).value| + |Decode(clean[n..]).value|)
  {
    hide DecodeChunk;
  }

  /** Exactly what is decoded: letters of the alphabet, in any number but one more than a multiple of four. */
  lemma {:induction false} DecodesExactly(clean: string)
    ensures Decode(clean).Ok? <==> |clean| % 4 != 1 && AllLetters(clean)
    ensures Decode(clean).Ok? ==> |Decode(clean).value| == DecodedLength(|clean|)
    decreases |clean|
  {
    if clean == "" {
      DecodeEmpty();
    } else {
      hide Decode, DecodeChunk, AllLetters, DecodedLength;
      var n := if |clean| < 4 then |clean| else 4;
      DecodeSplits(clean);
      ChunkDecodes(clean[..n]);
      LettersSplit(clean, n);
      if n == 4 {
        LengthStep(|clean|);
        DecodesExactly(clean[n..]);
      } else {
        LengthShort(|clean|);
        assert clean[n..] == "";
        DecodesExactly("");
        NoLength();
      }
    }
  }

  lemma NoLength()
    ensures DecodedLength(0) == 0
  {
  }

  lemma {:induction false} ChunkDecodesExactly(chunk: string)
    ensures ChunkValue(chunk).Some? <==> forall i :: 0 <= i < |chunk| ==> Sextet(chunk[i]).Some?
  {
    if chunk != "" {
      ChunkDecodesExactly(chunk[..|chunk| - 1]);
    }
  }

  function Prepended(out: seq<Byte>, r: Result<seq<Byte>, RevealError>): Result<seq<Byte>, RevealError> {
    match r
    case Err(e) => Err(e)
    case Ok(rest) => Ok(out + rest)
  }

  /** One chunk of the loop: its errors are final, its bytes follow those already decoded. */
  lemma DecodeStep(left: string, out: seq<Byte>)
    requires left != ""
    ensures var n := if |left| < 4 then |left| else 4;
            && (n < 2 ==> Decode(left) == Err(Truncated))
            && (n >= 2 && ChunkValue(left[..n]).None? ==> Decode(left) == Err(InvalidByte))
            && (n >= 2 && ChunkValue(left[..n]).Some? ==>
                  var bytes := BufferBytes(Shifted(ChunkValue(left[..n]).value, n));
                  Prepended(out, Decode(left)) == Prepended(out + bytes[..n - 1], Decode(left[n..])))
  {
    hide Decode, ChunkValue, Shifted, BufferBytes;
    var n := if |left| < 4 then |left| else 4;
    DecodeCase(left);
    var bytes, rest := DecodeChunk(left[..n]), Decode(left[n..]);
    if bytes.Ok? && rest.Ok? {
      assert out + (bytes.value + rest.value) == out + bytes.value + rest.value;
    }
  }

  lemma DecodeCase(left: string)
    requires left != ""
    ensures var n := if |left| < 4 then |left| else 4;
            Decode(left)
            == match DecodeChunk(left[..n])
               case Err(e) => Err(e)
               case Ok(bytes) => Prepended(bytes, Decode(left[n..]))
  {
    hide DecodeChunk;
  }

  lemma DecodeEmpty()
    ensures Decode("") == Ok([])
  {
  }

  /** Decode chunk by chunk, shifting sextets into a buffer. Text that is not base64 is refused. */
  method Reveal(b64: string) returns (r: Result<seq<Byte>, RevealError>)
    ensures r == Decode(Clean(b64))
  {
    hide Clean, Decode, DecodeChunk, ChunkValue, Shifted, BufferBytes, Sextet;
    var clean := FilterIgnored(b64);
    var out: seq<Byte> := [];
    var i := 0;
    assert clean[0..] == clean;
    assert Decode(clean).Ok? ==> [] + Decode(clean).value == Decode(clean).value;
    while i < |clean|
      invariant 0 <= i <= |clean|
      invariant Decode(clean) == Prepended(out, Decode(clean[i..]))
      decreases |clean| - i
    {
      var n := if |clean| - i < 4 then |clean| - i else 4;
      var chunk := clean[i..i + n];
      assert clean[i..][..n] == chunk && clean[i..][n..] == clean[i + n..];
      DecodeStep(clean[i..], out);
      if n < 2 {
        return Err(Truncated);
      }
      var buf := ShiftIn(chunk);
      if buf.None? {
        return Err(InvalidByte);
      }
      out := out + BufferBytes(Shifted(buf.value, n))[..n - 1];
      i := i + n;
    }
    DecodeEmpty();
    assert clean[i..] == "" && out + [] == out;
    return Ok(out);
  }

  method FilterIgnored(s: string) returns (clean: string)
    ensures clean == Clean(s)
  {
    clean := "";
    for i := 0 to |s|
      invariant clean == Clean(s[..i])
    {
      assert s[..i + 1][..i] == s[..i];
      if !IsIgnored(s[i]) { clean := clean + [s[i]]; }
    }
    assert s[..|s|] == s;
  }

  /** The sextets of a chunk, shifted into one buffer. */
  method ShiftIn(chunk: string) returns (buf: Option<nat>)
    ensures buf == ChunkValue(chunk)
  {
    var value := 0;
    for k := 0 to |chunk|
      invariant ChunkValue(chunk[..k]) == Some(value)
    {
      assert chunk[..k + 1] == chunk[..k] + [chunk[k]];
      var v := Sextet(chunk[k]);
      if v.None? {
        ChunkDecodesExactly(chunk);
        return None;
      }
      ChunkSnoc(chunk[..k], chunk[k]);
      value := value * 64 + v.value;
    }
    assert chunk[..|chunk|] == chunk;
    return Some(value);
  }
}
