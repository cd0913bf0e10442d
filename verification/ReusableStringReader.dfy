/** ReusableStringReader: a string read as bytes or as code points.

A string is a sequence of bytes. Encode is UTF-8 as section 3 of RFC 3629 defines
it; Decode is the reader's own decoder, which accepts more than UTF-8.
*/
module StringReader {

  type Bytes = seq<bv8>

  /** The code points that UTF-8 encodes. */
  predicate IsScalar(r: bv32) {
    r <= 0x10FFFF && !(0xD800 <= r <= 0xDFFF)
  }

  function Encode(r: bv32): (s: Bytes)
    requires IsScalar(r)
    ensures 1 <= |s| <= 4
  {
    if r < 0x80 then [r as bv8]
    else if r < 0x800 then [Lead(0xC0, r >> 6), Tail(r)]
    else if r < 0x10000 then [Lead(0xE0, r >> 12), Tail(r >> 6), Tail(r)]
    else [Lead(0xF0, r >> 18), Tail(r >> 12), Tail(r >> 6), Tail(r)]
  }

  function Lead(mark: bv32, bits: bv32): bv8 {
    ((mark | bits) & 0xFF) as bv8
  }

  function Tail(bits: bv32): bv8 {
    (0x80 | (bits & 0x3F)) as bv8
  }

  function Payload(b: bv8): bv32 {
    (b as bv32) & 0x3F
  }

  function Join2(a: bv8, b: bv8): bv32 {
    (((a as bv32) & 0x1F) << 6) | Payload(b)
  }

  function Join3(a: bv8, b: bv8, c: bv8): bv32 {
    (((a as bv32) & 0x0F) << 12) | (Payload(b) << 6) | Payload(c)
  }

  function Join4(a: bv8, b: bv8, c: bv8, d: bv8): bv32 {
    (((a as bv32) & 0x07) << 18) | (Payload(b) << 12) | (Payload(c) << 6) | Payload(d)
  }

  function Decode(s: Bytes): (result: (bv32, nat))
    ensures s == [] ==> result.1 == 0
    ensures s != [] ==> 1 <= result.1 <= 4 && result.1 <= |s|
  {
    if |s| == 0 then (0, 0)
    else if s[0] < 0x80 then (s[0] as bv32, 1)
    else if s[0] >= 0xC0 then
      if s[0] < 0xE0 && |s| > 1 then (Join2(s[0], s[1]), 2)
      else if s[0] < 0xF0 && |s| > 2 then (Join3(s[0], s[1], s[2]), 3)
      else if |s| > 3 then (Join4(s[0], s[1], s[2], s[3]), 4)
      else (s[0] as bv32, 1)
    else (s[0] as bv32, 1)
  }

  /** The examples of section 7 of RFC 3629. */
  lemma KnownEncodings()
    ensures Encode(0x41) == [0x41] && Encode(0x391) == [0xCE, 0x91]
    ensures Encode(0x2262) == [0xE2, 0x89, 0xA2] && Encode(0x233B4) == [0xF0, 0xA3, 0x8E, 0xB4]
  {
  }

  /** What is no UTF-8 is decoded too: a byte that starts nothing, or whose sequence is
      cut off, stands for itself, an overlong form for its value, and any byte continues. */
  lemma KnownDecodings(rest: Bytes)
    ensures Decode([0x80] + rest) == (0x80, 1)
    ensures Decode([0xE2, 0x89]) == (0xE2, 1) && Decode([0xC0, 0x80] + rest) == (0, 2)
    ensures Decode([0xC3, 0x41] + rest) == (0xC1, 2) && Decode([0xFF, 0x80, 0x80, 0x80] + rest) == (0x1C0000, 4)
  {
    assert Join2(0xC0, 0x80) == 0 && Join2(0xC3, 0x41) == 0xC1 && Join4(0xFF, 0x80, 0x80, 0x80) == 0x1C0000;
  }

  /** Decoding takes back one encoded code point, whatever follows. */
  lemma DecodeEncoded(r: bv32, rest: Bytes)
    requires IsScalar(r)
    ensures Decode(Encode(r) + rest) == (r, |Encode(r)|)
  {
    hide Lead, Tail, Payload, Join2, Join3, Join4;
    if r < 0x80 {
      OneByte(r);
    } else if r < 0x800 {
      TwoBytes(r);
    } else if r < 0x10000 {
      ThreeBytes(r);
    } else {
      FourBytes(r);
    }
  }

  lemma OneByte(r: bv32)
    requires r < 0x80
    ensures r as bv8 < 0x80 && (r as bv8) as bv32 == r
  {
  }

  lemma TwoBytes(r: bv32)
    requires 0x80 <= r < 0x800
    ensures 0xC0 <= Lead(0xC0, r >> 6) < 0xE0 && Join2(Lead(0xC0, r >> 6), Tail(r)) == r
  {
  }

  lemma ThreeBytes(r: bv32)
    requires 0x800 <= r < 0x10000
    ensures 0xE0 <= Lead(0xE0, r >> 12) < 0xF0 && Join3(Lead(0xE0, r >> 12), Tail(r >> 6), Tail(r)) == r
  {
  }

  lemma FourBytes(r: bv32)
    requires 0x10000 <= r <= 0x10FFFF
    ensures 0xF0 <= Lead(0xF0, r >> 18) && Join4(Lead(0xF0, r >> 18), Tail(r >> 12), Tail(r >> 6), Tail(r)) == r
  {
  }

  function EncodeAll(runes: seq<bv32>): Bytes
    requires forall i :: 0 <= i < |runes| ==> IsScalar(runes[i])
  {
    if runes == [] then [] else Encode(runes[0]) + EncodeAll(runes[1..])
  }

  function DecodeAll(s: Bytes): (runes: seq<bv32>)
    ensures |runes| <= |s|
  {
    if s == [] then [] else [Decode(s).0] + DecodeAll(s[Decode(s).1..])
  }

  /** Decoding the encoding of any text gives the text. */
  lemma {:induction false} RoundTrip(runes: seq<bv32>)
    requires forall i :: 0 <= i < |runes| ==> IsScalar(runes[i])
    ensures DecodeAll(EncodeAll(runes)) == runes
  {
    if runes != [] {
      hide Encode, Decode;
      var rest := EncodeAll(runes[1..]);
      DecodeEncoded(runes[0], rest);
      assert (Encode(runes[0]) + rest)[|Encode(runes[0])|..] == rest;
      RoundTrip(runes[1..]);
    }
  }

  /** Different texts have different encodings. */
  lemma EncodingIsInjective(a: seq<bv32>, b: seq<bv32>)
    requires forall i :: 0 <= i < |a| ==> IsScalar(a[i])
    requires forall i :: 0 <= i < |b| ==> IsScalar(b[i])
    ensures EncodeAll(a) == EncodeAll(b) <==> a == b
  {
    RoundTrip(a);
    RoundTrip(b);
  }

  class ReusableStringReader {
    var str: Bytes
    var pos: nat
    var size: nat

    predicate Valid()
      reads this
    {
      size == |str| && pos <= size
    }

    /** The bytes not read yet. */
    function Rest(): Bytes
      requires Valid()
      reads this
    {
      str[pos..]
    }

    constructor ()
      ensures Valid() && str == []
    {
      str, pos, size := [], 0, 0;
    }

    method SetValue(s: Bytes)
      modifies this
      ensures Valid() && str == s && Rest() == s
    {
      str, pos, size := s, 0, |s|;
    }

    method Reset()
      requires Valid()
      modifies this`pos
      ensures Valid() && Rest() == str
    {
      pos := 0;
    }

    /** Fills the buffer as far as there are bytes; the end is reported together with
        the last bytes. */
    method Read(p: array<bv8>) returns (n: nat, eof: bool)
      requires Valid()
      modifies this`pos, p
      ensures Valid() && unchanged(this`str) && unchanged(this`size)
      ensures n == if |old(Rest())| < p.Length then |old(Rest())| else p.Length
      ensures p[..n] == old(Rest())[..n] && p[n..] == old(p[..])[n..]
      ensures Rest() == old(Rest())[n..]
      ensures eof <==> Rest() == []
    {
      if pos >= size {
        return 0, true;
      }
      n := 0;
      while n < p.Length && pos + n < size
        invariant n <= p.Length && pos + n <= size && unchanged(this)
        invariant forall k :: 0 <= k < n ==> p[k] == str[pos + k]
        invariant forall k :: n <= k < p.Length ==> p[k] == old(p[k])
      {
        p[n] := str[pos + n];
        n := n + 1;
      }
      pos := pos + n;
      eof := pos >= size;
    }

    /** The next code point and how many bytes it took; nothing at the end. */
    method ReadRune() returns (ch: bv32, length: nat, eof: bool)
      requires Valid()
      modifies this`pos
      ensures Valid() && (eof <==> old(Rest()) == [])
      ensures (ch, length) == Decode(old(Rest())) && Rest() == old(Rest())[length..]
    {
      hide Decode;
      EmptyDecodes();
      if pos >= size {
        return 0, 0, true;
      }
      var decoded := Decode(str[pos..]);
      pos := pos + decoded.1;
      return decoded.0, decoded.1, false;
    }
  }

  lemma EmptyDecodes()
    ensures Decode([]) == (0, 0) && DecodeAll([]) == []
  {
  }

  /** Reading code points until the end: any bytes are consumed exactly, and encoded
      text comes back. */
  method ReadAllRunes(s: Bytes) returns (runes: seq<bv32>)
    ensures runes == DecodeAll(s)
  {
    hide Decode, DecodeAll, ReusableStringReader.Rest;
    EmptyDecodes();
    var reader := new ReusableStringReader();
    reader.SetValue(s);
    runes := [];
    ghost var rest := s;
    while true
      invariant reader.Valid() && fresh(reader) && reader.Rest() == rest
      invariant Continues(runes, rest, s)
      decreases |rest|
    {
      var ch, length, eof := reader.ReadRune();
      if eof {
        return;
      }
      ContinueStep(runes, rest, s);
      runes := runes + [ch];
      rest := rest[length..];
    }
  }

  /** After these code points the rest of s is still to be decoded. */
  ghost predicate Continues(runes: seq<bv32>, rest: Bytes, s: Bytes) {
    runes + DecodeAll(rest) == DecodeAll(s)
  }

  lemma ContinueStep(runes: seq<bv32>, rest: Bytes, s: Bytes)
    requires Continues(runes, rest, s) && rest != []
    ensures Continues(runes + [Decode(rest).0], rest[Decode(rest).1..], s)
  {
    hide Decode, DecodeAll;
    DecodeAllStep(rest);
    Regroup(runes, [Decode(rest).0], DecodeAll(rest[Decode(rest).1..]));
  }

  lemma DecodeAllStep(s: Bytes)
    requires s != []
    ensures DecodeAll(s) == [Decode(s).0] + DecodeAll(s[Decode(s).1..])
  {
    hide Decode;
  }

  lemma Regroup(a: seq<bv32>, b: seq<bv32>, c: seq<bv32>)
    ensures a + b + c == a + (b + c)
  {
  }

  /** The bytes that the first k buffers hold. */
  function Room(sizes: seq<nat>, k: nat): nat
    requires k <= |sizes|
  {
    if k == 0 then 0 else Room(sizes, k - 1) + sizes[k - 1]
  }

  lemma {:induction false} RoomGrows(sizes: seq<nat>, k: nat, n: nat)
    requires k <= n <= |sizes|
    ensures Room(sizes, k) <= Room(sizes, n)
  {
    if k < n {
      RoomGrows(sizes, k, n - 1);
    }
  }

  /** Reading with buffers of any sizes until the end is reported or the buffers are
      used up reassembles the bytes. */
  method ReadAll(s: Bytes, sizes: seq<nat>) returns (bytes: Bytes, eof: bool)
    ensures bytes == s[..if Room(sizes, |sizes|) < |s| then Room(sizes, |sizes|) else |s|]
    ensures sizes != [] ==> (eof <==> |s| <= Room(sizes, |sizes|))
  {
    var reader := new ReusableStringReader();
    reader.SetValue(s);
    bytes, eof := [], false;
    var k := 0;
    while k < |sizes| && !eof
      invariant k <= |sizes| && reader.Valid() && fresh(reader)
      invariant reader.str == s && bytes == s[..reader.pos]
      invariant |bytes| == if Room(sizes, k) < |s| then Room(sizes, k) else |s|
      invariant k > 0 ==> (eof <==> |bytes| == |s|)
      invariant eof ==> |bytes| == |s|
    {
      var chunk, end := ReadChunk(reader, sizes[k]);
      bytes := bytes + chunk;
      eof := end;
      k := k + 1;
    }
    RoomGrows(sizes, k, |sizes|);
  }

  method ReadChunk(reader: ReusableStringReader, size: nat) returns (chunk: Bytes, eof: bool)
    requires reader.Valid()
    modifies reader`pos
    ensures reader.Valid() && reader.pos == old(reader.pos) + |chunk|
    ensures reader.str[..reader.pos] == reader.str[..old(reader.pos)] + chunk
    ensures |chunk| == if reader.size - old(reader.pos) < size then reader.size - old(reader.pos) else size
    ensures eof <==> reader.pos == reader.size
  {
    var p := new bv8[size];
    var n, end := reader.Read(p);
    chunk, eof := p[..n], end;
  }
}
