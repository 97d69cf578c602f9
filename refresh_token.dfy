/**
 * `auth.MakeRefreshToken`: fills a 32-byte buffer from the random source
 * and returns it as lowercase hexadecimal (`hex.EncodeToString`), which is
 * Base16 as in section 8 of RFC 4648 with the lowercase alphabet.
 *
 * The random source is an input: a stream that yields bytes, or a reader
 * that fails. `Decode` (Go's `hex.DecodeString`) is the partner against
 * which the encoding is proved.
 */
module RefreshToken {
  import opened Go

  /** Go's `byte`. */
  newtype byte = x: int | 0 <= x < 256

  const TokenBytes := 32

  /** The digit table `encoding/hex` indexes with a nibble. */
  const HexTable := "0123456789abcdef"

  /** `v >> 4` and `v & 0x0f` of an unsigned byte. */
  function High(v: byte): (n: int) ensures 0 <= n < 16 { v as int / 16 }
  function Low(v: byte): (n: int) ensures 0 <= n < 16 { v as int % 16 }

  /** `hex.EncodeToString`: two characters per byte, high nibble first. */
  function Encode(b: seq<byte>): (r: string)
    ensures |r| == 2 * |b|
    ensures forall i :: 0 <= i < |b| ==> r[2 * i] == HexTable[High(b[i])] && r[2 * i + 1] == HexTable[Low(b[i])]
  {
    if b == [] then []
    else [HexTable[High(b[0])], HexTable[Low(b[0])]] + Encode(b[1..])
  }

  /** The value of one hexadecimal digit; `encoding/hex` accepts both cases. */
  function FromHexChar(c: char): (r: Option<int>)
    ensures r.Some? ==> 0 <= r.value < 16
  {
    if '0' <= c <= '9' then Some(c as int - '0' as int)
    else if 'a' <= c <= 'f' then Some(c as int - 'a' as int + 10)
    else if 'A' <= c <= 'F' then Some(c as int - 'A' as int + 10)
    else None
  }

  /** `hex.DecodeString`: fails on an odd length or on a character that is not a hex digit. */
  function Decode(s: string): (r: Option<seq<byte>>)
    ensures r.Some? ==> |s| == 2 * |r.value|
    decreases |s|
  {
    if s == [] then Some([])
    else if |s| == 1 then None
    else
      var hi, lo, rest := FromHexChar(s[0]), FromHexChar(s[1]), Decode(s[2..]);
      if hi.Some? && lo.Some? && rest.Some? then Some([(hi.value * 16 + lo.value) as byte] + rest.value)
      else None
  }

  /** The form of every token `MakeRefreshToken` returns: 64 characters of the lowercase alphabet. */
  predicate IsRefreshToken(s: string) {
    |s| == 2 * TokenBytes && forall k :: 0 <= k < |s| ==> s[k] in HexTable
  }

  /** The table holds the digits in order: entry `n` has value `n`. */
  lemma HexTableDigit(n: int)
    requires 0 <= n < 16
    ensures FromHexChar(HexTable[n]) == Some(n)
  {
  }

  /** Every character the table holds is decoded back to its position. */
  lemma TableCharDecodes(c: char) returns (n: int)
    requires c in HexTable
    ensures 0 <= n < 16 && HexTable[n] == c && FromHexChar(c) == Some(n)
  {
    n :| 0 <= n < |HexTable| && HexTable[n] == c;
    HexTableDigit(n);
  }

  /** Round trip: decoding an encoding gives back the bytes. */
  lemma {:induction false} DecodeEncode(b: seq<byte>)
    ensures Decode(Encode(b)) == Some(b)
  {
    if b != [] {
      var s := Encode(b);
      var hi, lo := High(b[0]), Low(b[0]);
      HexTableDigit(hi);
      HexTableDigit(lo);
      assert s[2..] == Encode(b[1..]);
      DecodeEncode(b[1..]);
      assert [(hi * 16 + lo) as byte] + b[1..] == b;
    }
  }

  /** Distinct byte strings have distinct encodings. */
  lemma EncodeInjective(a: seq<byte>, b: seq<byte>)
    requires Encode(a) == Encode(b)
    ensures a == b
  {
    DecodeEncode(a);
    DecodeEncode(b);
  }

  /** Every character of an encoding is a lowercase hex digit. */
  lemma EncodeAlphabet(b: seq<byte>)
    ensures forall k :: 0 <= k < |Encode(b)| ==> Encode(b)[k] in HexTable
  {
    var s := Encode(b);
    forall k | 0 <= k < |s|
      ensures s[k] in HexTable
    {
      var i := k / 2;
      if k % 2 == 0 {
        assert k == 2 * i;
      } else {
        assert k == 2 * i + 1;
      }
    }
  }

  /**
   * The token form is exactly the image of the encoder on 32 bytes: every
   * string of that form decodes to 32 bytes that encode back to it.
   */
  lemma {:induction false} LowercaseHexEncodesDecode(s: string)
    requires |s| % 2 == 0 && forall k :: 0 <= k < |s| ==> s[k] in HexTable
    ensures Decode(s).Some? && Encode(Decode(s).value) == s
    decreases |s|
  {
    if s != [] {
      var hi := TableCharDecodes(s[0]);
      var lo := TableCharDecodes(s[1]);
      LowercaseHexEncodesDecode(s[2..]);
      var rest := Decode(s[2..]).value;
      var x := (hi * 16 + lo) as byte;
      DecodeCons(s, hi, lo);
      assert High(x) == hi && Low(x) == lo;
      EncodeCons(x, rest);
      assert Decode(s).value == [x] + rest;
      assert Encode([x] + rest) == [s[0], s[1]] + s[2..];
      assert s == [s[0], s[1]] + s[2..];
    }
  }

  /** One step of `Encode`: the first byte's two digits, then the rest. */
  lemma EncodeCons(x: byte, rest: seq<byte>)
    ensures Encode([x] + rest) == [HexTable[High(x)], HexTable[Low(x)]] + Encode(rest)
  {
    assert ([x] + rest)[1..] == rest;
  }

  /** One step of `Decode`: two digits, then the rest. */
  lemma DecodeCons(s: string, hi: int, lo: int)
    requires |s| >= 2 && FromHexChar(s[0]) == Some(hi) && FromHexChar(s[1]) == Some(lo) && Decode(s[2..]).Some?
    ensures Decode(s) == Some([(hi * 16 + lo) as byte] + Decode(s[2..]).value)
  {
  }

  /** Tokens of the refresh-token form are in one-to-one correspondence with 32-byte buffers. */
  lemma TokenFormIsImage(s: string)
    requires IsRefreshToken(s)
    ensures Decode(s).Some? && |Decode(s).value| == TokenBytes && Encode(Decode(s).value) == s
    ensures forall b: seq<byte> :: Encode(b) == s ==> b == Decode(s).value
  {
    LowercaseHexEncodesDecode(s);
    forall b: seq<byte> | Encode(b) == s
      ensures b == Decode(s).value
    {
      DecodeEncode(b);
    }
  }

  /** The random reader: a stream of bytes, or a reader that fails with `cause`. */
  datatype RandomSource = Healthy(stream: seq<byte>) | Broken(cause: string)

  /**
   * `rand.Read(b)` as Go releases up to 1.23 define it, `io.ReadFull` on
   * the system's random reader (from Go 1.24 on it never fails):
   * copies bytes into `b` until it is full. A stream that ends first leaves
   * the bytes it gave and fails with "EOF" (nothing read) or
   * "unexpected EOF"; a broken reader fails with its own error.
   */
  method Read(source: RandomSource, b: array<byte>) returns (n: nat, err: Error)
    modifies b
    ensures err == Nil <==> b.Length == 0 || (source.Healthy? && b.Length <= |source.stream|)
    ensures n <= b.Length
    ensures source.Healthy? ==> n <= |source.stream| && b[..n] == source.stream[..n]
    ensures source.Healthy? ==> n == if b.Length <= |source.stream| then b.Length else |source.stream|
    ensures source.Broken? ==> n == 0
    ensures source.Broken? && b.Length > 0 ==> err == Error(source.cause)
    ensures source.Healthy? && n < b.Length ==> err == Error(if n == 0 then "EOF" else "unexpected EOF")
    ensures b[n..] == old(b[n..])
  {
    if b.Length == 0 {
      return 0, Nil;
    }
    if source.Broken? {
      return 0, Error(source.cause);
    }
    var stream := source.stream;
    n := if b.Length <= |stream| then b.Length else |stream|;
    for i := 0 to n
      invariant b[..i] == stream[..i]
      invariant b[i..] == old(b[i..])
    {
      b[i] := stream[i];
      assert b[..i + 1] == b[..i] + [b[i]];
      assert b[i + 1..] == old(b[i..])[1..];
    }
    if n == b.Length {
      err := Nil;
    } else if n == 0 {
      err := Error("EOF");
    } else {
      err := Error("unexpected EOF");
    }
  }

  /**
   * `MakeRefreshToken`: on a full read, the lowercase hex of the 32 bytes
   * read and no error; otherwise "" and the read error wrapped as "error: ...".
   */
  method MakeRefreshToken(source: RandomSource) returns (token: string, err: Error)
    ensures err == Nil <==> source.Healthy? && TokenBytes <= |source.stream|
    ensures err == Nil ==> token == Encode(source.stream[..TokenBytes]) && IsRefreshToken(token)
    ensures err != Nil ==> token == ""
    ensures source.Broken? ==> err == Error("error: " + source.cause)
    ensures source.Healthy? && |source.stream| < TokenBytes ==>
      err == Error("error: " + if |source.stream| == 0 then "EOF" else "unexpected EOF")
  {
    var n := TokenBytes;
    var b := new byte[n];
    var read, readErr := Read(source, b);
    if readErr != Nil {
      return "", Error("error: " + readErr.message);
    }
    assert b[..] == b[..read];
    token := Encode(b[..]);
    EncodeAlphabet(b[..]);
    err := Nil;
  }
}
