/**
 * The text-to-octets step of the notifier: the message string is turned into
 * the octets that are then base64-encoded. A Dafny `char` is a Unicode scalar
 * value, so every string has a UTF-8 encoding; the decoder below is the
 * specification-level inverse used to state the round trip.
 */
module Utf8 {
  import opened Wrappers

  /** The code points a `char` can hold. */
  predicate IsScalar(n: int) {
    0 <= n < 0xD800 || 0xE000 <= n < 0x11_0000
  }

  predicate IsAscii(s: string) {
    forall i :: 0 <= i < |s| ==> s[i] as int < 0x80
  }

  lemma AsciiAppend(s: string, t: string)
    requires IsAscii(s) && IsAscii(t)
    ensures IsAscii(s + t)
  {
    forall i | 0 <= i < |s + t| ensures (s + t)[i] as int < 0x80 {
      if i >= |s| {
        assert (s + t)[i] == t[i - |s|];
      }
    }
  }

  predicate IsContinuation(b: byte) {
    0x80 <= b < 0xC0
  }

  /** The one- to four-octet UTF-8 form of one scalar value. */
  function EncodeChar(c: char): (r: seq<byte>)
    ensures 1 <= |r| <= 4
    ensures |r| == 1 <==> c as int < 0x80
    ensures forall i :: 1 <= i < |r| ==> IsContinuation(r[i])
  {
    var n := c as int;
    if n < 0x80 then [n]
    else if n < 0x800 then [0xC0 + n / 64, 0x80 + n % 64]
    else if n < 0x1_0000 then [0xE0 + n / 4096, 0x80 + n / 64 % 64, 0x80 + n % 64]
    else [0xF0 + n / 262144, 0x80 + n / 4096 % 64, 0x80 + n / 64 % 64, 0x80 + n % 64]
  }

  /** The octets of a whole string: the encodings of its characters, in order. */
  function Encode(s: string): (r: seq<byte>)
    ensures |s| <= |r| <= 4 * |s|
  {
    if s == [] then [] else EncodeChar(s[0]) + Encode(s[1..])
  }

  /** How many octets the sequence introduced by `lead` has; 0 for a byte that cannot lead. */
  function SequenceLength(lead: byte): (k: nat)
    ensures k <= 4
  {
    if lead < 0x80 then 1
    else if 0xC0 <= lead < 0xE0 then 2
    else if 0xE0 <= lead < 0xF0 then 3
    else if 0xF0 <= lead < 0xF8 then 4
    else 0
  }

  /** The least value an octet sequence of that length may spell: anything smaller is overlong. */
  function ShortestFormMinimum(k: nat): nat
  {
    if k <= 1 then 0 else if k == 2 then 0x80 else if k == 3 then 0x800 else 0x1_0000
  }

  /**
   * The scalar value spelled by one complete octet sequence, if it spells one:
   * continuation octets after the first, no surrogate, nothing beyond
   * U+10FFFF, and the shortest form (section 3 of RFC 3629).
   */
  function DecodeScalar(b: seq<byte>): (r: Option<char>)
    requires 1 <= |b| <= 4
    ensures r.Some? ==> forall i :: 1 <= i < |b| ==> IsContinuation(b[i])
    ensures r.Some? ==> r.value as int >= ShortestFormMinimum(|b|)
  {
    var n :=
      if |b| == 1 then b[0] as int
      else if |b| == 2 then (b[0] as int - 0xC0) * 64 + (b[1] as int - 0x80)
      else if |b| == 3 then (b[0] as int - 0xE0) * 4096 + (b[1] as int - 0x80) * 64 + (b[2] as int - 0x80)
      else (b[0] as int - 0xF0) * 262144 + (b[1] as int - 0x80) * 4096 + (b[2] as int - 0x80) * 64 + (b[3] as int - 0x80);
    if (forall i :: 1 <= i < |b| ==> IsContinuation(b[i])) && IsScalar(n) && n >= ShortestFormMinimum(|b|)
    then Some(n as char)
    else None
  }

  /** Decodes a whole octet string; None if it is not a sequence of UTF-8 octet sequences. */
  function Decode(b: seq<byte>): Option<string>
    decreases |b|
  {
    if b == [] then Some([])
    else
      var k := SequenceLength(b[0]);
      if k == 0 || |b| < k then None
      else match DecodeScalar(b[..k])
        case None => None
        case Some(c) =>
          match Decode(b[k..])
          case None => None
          case Some(s) => Some([c] + s)
  }

  /** The lead octet of an encoded character announces the length of its encoding. */
  lemma LeadAnnouncesLength(c: char)
    ensures SequenceLength(EncodeChar(c)[0]) == |EncodeChar(c)|
  {
    var n := c as int;
    if 0x1_0000 <= n {
      assert n / 262144 <= 4;
    }
  }

  /** The three six-bit groups of a value below 0x10000 put together again. */
  lemma ThreeGroups(n: int)
    requires 0 <= n
    ensures (n / 4096) * 4096 + (n / 64 % 64) * 64 + n % 64 == n
  {
    assert n / 64 == (n / 4096) * 64 + n / 64 % 64;
    assert n == (n / 64) * 64 + n % 64;
  }

  /** The four groups of a value of at least 0x10000 put together again. */
  lemma FourGroups(n: int)
    requires 0 <= n
    ensures (n / 262144) * 262144 + (n / 4096 % 64) * 4096 + (n / 64 % 64) * 64 + n % 64 == n
  {
    assert n / 4096 == (n / 262144) * 64 + n / 4096 % 64;
    ThreeGroups(n);
  }

  /** The octet sequence of a character spells that character again. */
  lemma DecodeScalarEncodeChar(c: char)
    ensures DecodeScalar(EncodeChar(c)) == Some(c)
  {
    var e := EncodeChar(c);
    var n := c as int;
    if n < 0x80 {
    } else if n < 0x800 {
      assert (e[0] as int - 0xC0) * 64 + (e[1] as int - 0x80) == n;
    } else if n < 0x1_0000 {
      ThreeGroups(n);
      assert e[0] as int - 0xE0 == n / 4096;
      assert e[1] as int - 0x80 == n / 64 % 64;
      assert e[2] as int - 0x80 == n % 64;
    } else {
      FourGroups(n);
      assert e[0] as int - 0xF0 == n / 262144;
      assert e[1] as int - 0x80 == n / 4096 % 64;
      assert e[2] as int - 0x80 == n / 64 % 64;
      assert e[3] as int - 0x80 == n % 64;
    }
  }

  /** Decoding an encoded character in front of any octets yields that character first. */
  lemma DecodeEncodeChar(c: char, rest: seq<byte>)
    ensures Decode(EncodeChar(c) + rest) ==
      match Decode(rest)
      case None => None
      case Some(s) => Some([c] + s)
  {
    var e := EncodeChar(c);
    var b := e + rest;
    assert b[..|e|] == e;
    assert b[|e|..] == rest;
    LeadAnnouncesLength(c);
    DecodeScalarEncodeChar(c);
  }

  /** Decoding the octets of any string gives back that string. */
  lemma {:induction false} DecodeEncode(s: string)
    ensures Decode(Encode(s)) == Some(s)
  {
    if s != [] {
      DecodeEncode(s[1..]);
      DecodeEncodeChar(s[0], Encode(s[1..]));
      assert [s[0]] + s[1..] == s;
    }
  }

  lemma DivMod64(q: int, r: int)
    requires 0 <= q && 0 <= r < 64
    ensures (q * 64 + r) / 64 == q && (q * 64 + r) % 64 == r
  {
  }

  lemma DivMod4096(q: int, r: int)
    requires 0 <= q && 0 <= r < 4096
    ensures (q * 4096 + r) / 4096 == q
  {
  }

  lemma DivMod262144(q: int, r: int)
    requires 0 <= q && 0 <= r < 262144
    ensures (q * 262144 + r) / 262144 == q
  {
  }

  /** The six-bit groups of a two-octet value. */
  lemma Groups2(x: int, z: int)
    requires 0 <= x && 0 <= z < 64
    ensures var n := x * 64 + z; n / 64 == x && n % 64 == z
  {
    DivMod64(x, z);
  }

  /** The six-bit groups of a three-octet value. */
  lemma Groups3(x: int, y: int, z: int)
    requires 0 <= x && 0 <= y < 64 && 0 <= z < 64
    ensures var n := x * 4096 + y * 64 + z; n / 4096 == x && n / 64 % 64 == y && n % 64 == z
  {
    var n := x * 4096 + y * 64 + z;
    assert n == (x * 64 + y) * 64 + z;
    DivMod64(x * 64 + y, z);
    DivMod64(x, y);
    DivMod4096(x, y * 64 + z);
  }

  /** The six-bit groups of a four-octet value. */
  lemma Groups4(w: int, x: int, y: int, z: int)
    requires 0 <= w && 0 <= x < 64 && 0 <= y < 64 && 0 <= z < 64
    ensures var n := w * 262144 + x * 4096 + y * 64 + z;
      n / 262144 == w && n / 4096 % 64 == x && n / 64 % 64 == y && n % 64 == z
  {
    var n := w * 262144 + x * 4096 + y * 64 + z;
    assert n == (w * 64 + x) * 4096 + (y * 64 + z);
    DivMod4096(w * 64 + x, y * 64 + z);
    DivMod64(w, x);
    Groups3(w * 64 + x, y, z);
    DivMod262144(w, x * 4096 + y * 64 + z);
  }

  /** A sequence the decoder accepts is the encoding of the character it spells. */
  lemma EncodeDecodeScalar(b: seq<byte>, c: char)
    requires 1 <= |b| <= 4 && SequenceLength(b[0]) == |b|
    requires DecodeScalar(b) == Some(c)
    ensures EncodeChar(c) == b
  {
    var n := c as int;
    if |b| == 2 {
      Groups2(b[0] as int - 0xC0, b[1] as int - 0x80);
      assert EncodeChar(c) == [b[0], b[1]];
    } else if |b| == 3 {
      Groups3(b[0] as int - 0xE0, b[1] as int - 0x80, b[2] as int - 0x80);
      assert EncodeChar(c) == [b[0], b[1], b[2]];
    } else if |b| == 4 {
      Groups4(b[0] as int - 0xF0, b[1] as int - 0x80, b[2] as int - 0x80, b[3] as int - 0x80);
      assert EncodeChar(c) == [b[0], b[1], b[2], b[3]];
    }
  }

  /**
   * The decoder is strict: octets it accepts are exactly the encoding of the
   * text it returns, so no other spelling (an overlong one, say) gets through.
   */
  lemma {:induction false} EncodeDecode(b: seq<byte>, s: string)
    requires Decode(b) == Some(s)
    ensures Encode(s) == b
    decreases |b|
  {
    if b != [] {
      var k := SequenceLength(b[0]);
      var c := DecodeScalar(b[..k]).value;
      var t := Decode(b[k..]).value;
      EncodeDecode(b[k..], t);
      assert b[..k][0] == b[0];
      EncodeDecodeScalar(b[..k], c);
      assert s == [c] + t && s[1..] == t;
      assert b[..k] + b[k..] == b;
    }
  }

  /** An overlong two-octet spelling of U+0000 is refused. */
  lemma OverlongRejected()
    ensures Decode([0xC0, 0x80]) == None
  {
    assert [0xC0, 0x80][..2] == [0xC0, 0x80];
  }

  /** For ASCII text the octets are the character codes, one per character. */
  lemma {:induction false} EncodeAscii(s: string)
    requires IsAscii(s)
    ensures |Encode(s)| == |s|
    ensures forall i :: 0 <= i < |s| ==> Encode(s)[i] == s[i] as int
  {
    if s != [] {
      assert IsAscii(s[1..]) by {
        forall i | 0 <= i < |s[1..]| ensures s[1..][i] as int < 0x80 {
          assert s[1..][i] == s[i + 1];
        }
      }
      EncodeAscii(s[1..]);
    }
  }

  /** The encoding of a concatenation is the concatenation of the encodings. */
  lemma {:induction false} EncodeAppend(s: string, t: string)
    ensures Encode(s + t) == Encode(s) + Encode(t)
  {
    if s == [] {
      assert s + t == t;
    } else {
      assert (s + t)[1..] == s[1..] + t;
      EncodeAppend(s[1..], t);
    }
  }
}
