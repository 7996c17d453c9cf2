/**
 * The encoding step of the notifier: standard base64 (section 4 of RFC 4648,
 * with '=' padding), then the two global replacements '+' -> '-' and
 * '/' -> '_' that move it to the URL-safe alphabet of section 5 of RFC 4648,
 * then the removal of the trailing run of '='. The decoder is the
 * specification-level inverse the Gmail service applies.
 */
module Base64 {
  import opened Wrappers

  type sextet = v: int | 0 <= v < 64

  /** Table 1 of RFC 4648: the character that stands for a 6-bit value. */
  function StdChar(v: sextet): char
  {
    if v < 26 then ('A' as int + v) as char
    else if v < 52 then ('a' as int + (v - 26)) as char
    else if v < 62 then ('0' as int + (v - 52)) as char
    else if v == 62 then '+'
    else '/'
  }

  /** The 6-bit value a character of Table 1 stands for; None for any other character. */
  function StdValue(c: char): (r: Option<sextet>)
    ensures r.Some? ==> StdChar(r.value) == c
  {
    if 'A' <= c <= 'Z' then Some(c as int - 'A' as int)
    else if 'a' <= c <= 'z' then Some(c as int - 'a' as int + 26)
    else if '0' <= c <= '9' then Some(c as int - '0' as int + 52)
    else if c == '+' then Some(62)
    else if c == '/' then Some(63)
    else None
  }

  predicate IsStdChar(c: char) {
    StdValue(c).Some?
  }

  /** Table 2 of RFC 4648, the URL and filename safe alphabet. */
  predicate IsUrlChar(c: char) {
    'A' <= c <= 'Z' || 'a' <= c <= 'z' || '0' <= c <= '9' || c == '-' || c == '_'
  }

  lemma StdValueOfChar(v: sextet)
    ensures StdValue(StdChar(v)) == Some(v)
  {
  }

  /** Number of '=' that standard base64 appends after `n` octets. */
  function PadLength(n: nat): (p: nat)
    ensures p <= 2
    ensures (n + p) % 3 == 0
  {
    if n % 3 == 0 then 0 else 3 - n % 3
  }

  /**
   * One group of one to three octets as four characters: the 24 bits are read
   * six at a time, missing octets count as zero bits, and each sextet that
   * holds no bit of input is written as '='.
   */
  function EncodeGroup(g: seq<byte>): (r: seq<char>)
    requires 1 <= |g| <= 3
    ensures |r| == 4
  {
    var b0 := g[0];
    var b1 := if |g| > 1 then g[1] else 0;
    var b2 := if |g| > 2 then g[2] else 0;
    [StdChar(b0 / 4), StdChar(b0 % 4 * 16 + b1 / 16),
     if |g| > 1 then StdChar(b1 % 16 * 4 + b2 / 64) else '=',
     if |g| > 2 then StdChar(b2 % 64) else '=']
  }

  /** Standard base64 with padding: each group of three octets becomes four characters. */
  function Encode(b: seq<byte>): (r: seq<char>)
    ensures |r| == 4 * ((|b| + 2) / 3)
    ensures |r| % 4 == 0
    decreases |b|
  {
    if |b| == 0 then []
    else if |b| < 3 then EncodeGroup(b)
    else
      GroupCountStep(|b|);
      EncodeGroup(b[..3]) + Encode(b[3..])
  }

  /** Three more octets make one more group of four characters, with the same padding. */
  lemma GroupCountStep(n: nat)
    requires n >= 3
    ensures (n + 2) / 3 == (n - 3 + 2) / 3 + 1
    ensures PadLength(n) == PadLength(n - 3)
  {
  }

  /**
   * One group of four characters. Only the last group (`last`) may end in one
   * or two '='; a group that is not well formed yields None.
   */
  function DecodeGroup(q: seq<char>, last: bool): (r: Option<seq<byte>>)
    requires |q| == 4
    ensures r.Some? ==> 1 <= |r.value| <= 3 && (|r.value| < 3 ==> last)
  {
    var v0, v1, v2, v3 := StdValue(q[0]), StdValue(q[1]), StdValue(q[2]), StdValue(q[3]);
    if v0.None? || v1.None? then None
    else
      var o0 := v0.value * 4 + v1.value / 16;
      if v2.Some? && v3.Some? then
        Some([o0, v1.value % 16 * 16 + v2.value / 4, v2.value % 4 * 64 + v3.value])
      else if last && v2.Some? && q[3] == '=' then
        Some([o0, v1.value % 16 * 16 + v2.value / 4])
      else if last && q[2] == '=' && q[3] == '=' then
        Some([o0])
      else None
  }

  /** Standard base64 decoding; None unless the input is whole groups of four. */
  function Decode(s: seq<char>): Option<seq<byte>>
    decreases |s|
  {
    if |s| == 0 then Some([])
    else if |s| < 4 then None
    else match DecodeGroup(s[..4], |s| == 4)
      case None => None
      case Some(g) =>
        match Decode(s[4..])
        case None => None
        case Some(rest) => Some(g + rest)
  }

  /** One of the global `replace` calls: every occurrence of `from` becomes `to`. */
  function ReplaceAll(s: seq<char>, from: char, to: char): (r: seq<char>)
    ensures |r| == |s|
    ensures forall i :: 0 <= i < |s| ==> r[i] == (if s[i] == from then to else s[i])
  {
    seq(|s|, i requires 0 <= i < |s| => if s[i] == from then to else s[i])
  }

  /**
   * Replacing back undoes a replacement into a character the text does not
   * hold, and after a real replacement none of the replaced character is left.
   */
  lemma ReplaceAllUndone(s: seq<char>, from: char, to: char)
    ensures to !in s ==> ReplaceAll(ReplaceAll(s, from, to), to, from) == s
    ensures from != to ==> from !in ReplaceAll(s, from, to)
  {
  }

  /** The `.replace(/=+$/, '')` step: drops the longest run of '=' at the end. */
  function TrimPadding(s: seq<char>): (r: seq<char>)
    ensures r <= s
    ensures r == [] || r[|r| - 1] != '='
    ensures forall i :: |r| <= i < |s| ==> s[i] == '='
    decreases |s|
  {
    if |s| > 0 && s[|s| - 1] == '=' then TrimPadding(s[..|s| - 1]) else s
  }

  /** The two replacements `.replace(/\+/g, '-').replace(/\//g, '_')`, in that order. */
  function ToUrlAlphabet(s: seq<char>): (r: seq<char>)
    ensures |r| == |s|
    ensures forall i :: 0 <= i < |r| ==> r[i] != '+' && r[i] != '/'
  {
    ReplaceAll(ReplaceAll(s, '+', '-'), '/', '_')
  }

  /** The receiver's reverse replacements '-' -> '+' and '_' -> '/'. */
  function FromUrlAlphabet(s: seq<char>): seq<char>
  {
    ReplaceAll(ReplaceAll(s, '-', '+'), '_', '/')
  }

  /** Standard base64 moved to the URL-safe alphabet by the two replacements, padding removed. */
  function UrlEncodeNoPad(b: seq<byte>): (r: seq<char>)
    ensures |r| <= |Encode(b)|
    ensures forall i :: 0 <= i < |r| ==> r[i] != '+' && r[i] != '/'
    ensures r == [] || r[|r| - 1] != '='
  {
    TrimPadding(ToUrlAlphabet(Encode(b)))
  }

  /** The '=' that bring a length up to a multiple of four. */
  function Padding(n: nat): (r: seq<char>)
    ensures (n + |r|) % 4 == 0 && |r| < 4
    ensures forall i :: 0 <= i < |r| ==> r[i] == '='
  {
    var k := (4 - n % 4) % 4;
    seq(k, i requires 0 <= i < k => '=')
  }

  /** The receiver's decoding: back to the standard alphabet, padding restored, then standard decoding. */
  function UrlDecodeNoPad(s: seq<char>): Option<seq<byte>>
  {
    var t := FromUrlAlphabet(s);
    Decode(t + Padding(|t|))
  }

  /** Which characters of an encoded group are padding. */
  lemma EncodeGroupShape(g: seq<byte>)
    requires 1 <= |g| <= 3
    ensures forall i :: 0 <= i < 4 ==> (EncodeGroup(g)[i] == '=' <==> i > |g|)
    ensures forall i :: 0 <= i <= |g| ==> IsStdChar(EncodeGroup(g)[i])
  {
    var b0 := g[0];
    var b1 := if |g| > 1 then g[1] else 0;
    var b2 := if |g| > 2 then g[2] else 0;
    StdValueOfChar(b0 / 4);
    StdValueOfChar(b0 % 4 * 16 + b1 / 16);
    StdValueOfChar(b1 % 16 * 4 + b2 / 64);
    StdValueOfChar(b2 % 64);
  }

  /** `e` is standard-alphabet text followed by exactly `p` characters '='. */
  predicate PaddedShape(e: seq<char>, p: nat) {
    && p <= |e|
    && (forall i :: 0 <= i < |e| - p ==> IsStdChar(e[i]))
    && (forall i :: |e| - p <= i < |e| ==> e[i] == '=')
  }

  lemma ShapeCons(q: seq<char>, rest: seq<char>, p: nat)
    requires forall i :: 0 <= i < |q| ==> IsStdChar(q[i])
    requires PaddedShape(rest, p)
    ensures PaddedShape(q + rest, p)
  {
    var e := q + rest;
    forall i | 0 <= i < |e| - p ensures IsStdChar(e[i]) {
      if |q| <= i {
        assert e[i] == rest[i - |q|];
      }
    }
    forall i | |e| - p <= i < |e| ensures e[i] == '=' {
      assert e[i] == rest[i - |q|];
    }
  }

  /**
   * The shape of standard base64: all characters before the padding are in the
   * standard alphabet, and the last PadLength(|b|) are '='.
   */
  lemma {:induction false} EncodeShape(b: seq<byte>)
    ensures PaddedShape(Encode(b), PadLength(|b|))
    decreases |b|
  {
    if |b| >= 3 {
      EncodeShape(b[3..]);
      EncodeGroupShape(b[..3]);
      GroupCountStep(|b|);
      ShapeCons(EncodeGroup(b[..3]), Encode(b[3..]), PadLength(|b|));
    } else if |b| > 0 {
      EncodeGroupShape(b);
      assert Encode(b) == EncodeGroup(b);
    }
  }

  /** The sextets of a group put back together give its octets. */
  lemma GroupArithmetic(b0: byte, b1: byte, b2: byte)
    ensures (b0 / 4) * 4 + (b0 % 4 * 16 + b1 / 16) / 16 == b0
    ensures ((b0 % 4 * 16 + b1 / 16) % 16) * 16 + (b1 % 16 * 4 + b2 / 64) / 4 == b1
    ensures ((b1 % 16 * 4 + b2 / 64) % 4) * 64 + b2 % 64 == b2
  {
    assert (b0 % 4 * 16 + b1 / 16) / 16 == b0 % 4;
    assert (b0 % 4 * 16 + b1 / 16) % 16 == b1 / 16;
    assert (b1 % 16 * 4 + b2 / 64) / 4 == b1 % 16;
    assert (b1 % 16 * 4 + b2 / 64) % 4 == b2 / 64;
  }

  /** The characters of an encoded group and the sextets they stand for. */
  lemma GroupValues(g: seq<byte>)
    requires 1 <= |g| <= 3
    ensures var b0 := g[0]; var b1 := if |g| > 1 then g[1] else 0; var b2 := if |g| > 2 then g[2] else 0;
      var q := EncodeGroup(g);
      && StdValue(q[0]) == Some(b0 / 4)
      && StdValue(q[1]) == Some(b0 % 4 * 16 + b1 / 16)
      && (if |g| > 1 then StdValue(q[2]) == Some(b1 % 16 * 4 + b2 / 64) else q[2] == '=')
      && (if |g| > 2 then StdValue(q[3]) == Some(b2 % 64) else q[3] == '=')
  {
    var b0 := g[0];
    var b1 := if |g| > 1 then g[1] else 0;
    var b2 := if |g| > 2 then g[2] else 0;
    StdValueOfChar(b0 / 4);
    StdValueOfChar(b0 % 4 * 16 + b1 / 16);
    StdValueOfChar(b1 % 16 * 4 + b2 / 64);
    StdValueOfChar(b2 % 64);
  }

  /** An encoded group decodes to its octets; a short group only as the last one. */
  lemma DecodeEncodeGroup(g: seq<byte>, last: bool)
    requires 1 <= |g| <= 3
    requires |g| < 3 ==> last
    ensures DecodeGroup(EncodeGroup(g), last) == Some(g)
  {
    var b0 := g[0];
    var b1 := if |g| > 1 then g[1] else 0;
    var b2 := if |g| > 2 then g[2] else 0;
    GroupValues(g);
    GroupArithmetic(b0, b1, b2);
    if |g| == 1 {
      assert [b0] == g;
    } else if |g| == 2 {
      assert [b0, b1] == g;
    } else {
      assert [b0, b1, b2] == g;
    }
  }

  /** Decoding proceeds group by group. */
  lemma DecodeCons(q: seq<char>, rest: seq<char>)
    requires |q| == 4
    ensures Decode(q + rest) ==
      match DecodeGroup(q, rest == [])
      case None => None
      case Some(g) =>
        match Decode(rest)
        case None => None
        case Some(r) => Some(g + r)
  {
    assert (q + rest)[..4] == q && (q + rest)[4..] == rest;
    if rest == [] {
      match DecodeGroup(q, true)
      case None =>
      case Some(g) => assert g + [] == g;
    }
  }

  /** Standard decoding inverts standard encoding. */
  lemma {:induction false} DecodeEncode(b: seq<byte>)
    ensures Decode(Encode(b)) == Some(b)
    decreases |b|
  {
    if |b| >= 3 {
      DecodeEncode(b[3..]);
      var rest := Encode(b[3..]);
      DecodeEncodeGroup(b[..3], rest == []);
      DecodeCons(EncodeGroup(b[..3]), rest);
      assert b[..3] + b[3..] == b;
    } else if |b| > 0 {
      var q := EncodeGroup(b);
      DecodeEncodeGroup(b, true);
      assert Encode(b) == q && q + [] == q;
      DecodeCons(q, []);
      assert Decode([]) == Some([]);
      assert b + [] == b;
    }
  }

  /** The replacements act character by character. */
  lemma ToUrlAlphabetAt(s: seq<char>)
    ensures |ToUrlAlphabet(s)| == |s|
    ensures forall i :: 0 <= i < |s| ==>
      ToUrlAlphabet(s)[i] == (if s[i] == '+' then '-' else if s[i] == '/' then '_' else s[i])
  {
  }

  lemma FromUrlAlphabetAt(s: seq<char>)
    ensures |FromUrlAlphabet(s)| == |s|
    ensures forall i :: 0 <= i < |s| ==>
      FromUrlAlphabet(s)[i] == (if s[i] == '-' then '+' else if s[i] == '_' then '/' else s[i])
  {
  }

  /** The reverse replacements undo the forward ones on text in the standard alphabet. */
  lemma FromToUrlAlphabet(s: seq<char>)
    requires forall i :: 0 <= i < |s| ==> IsStdChar(s[i])
    ensures FromUrlAlphabet(ToUrlAlphabet(s)) == s
  {
    ToUrlAlphabetAt(s);
    FromUrlAlphabetAt(ToUrlAlphabet(s));
  }

  /** TrimPadding cuts exactly before a final run of '=' that follows a non-'=' character. */
  lemma TrimPaddingAt(s: seq<char>, k: nat)
    requires k <= |s|
    requires k == 0 || s[k - 1] != '='
    requires forall i :: k <= i < |s| ==> s[i] == '='
    ensures TrimPadding(s) == s[..k]
  {
  }

  lemma EncodedLength(n: nat)
    ensures 4 * ((n + 2) / 3) - PadLength(n) == (4 * n + 2) / 3
  {
    var q, m := n / 3, n % 3;
    assert n == 3 * q + m;
    assert (n + 2) / 3 == if m == 0 then q else q + 1;
    assert (4 * n + 2) / 3 == 4 * q + (4 * m + 2) / 3;
  }

  /**
   * What the encoder produces: the standard encoding, cut before its padding,
   * in the URL-safe alphabet; its length is ceil(4n/3).
   */
  lemma UrlEncodeShape(b: seq<byte>)
    ensures var e := Encode(b); var u := UrlEncodeNoPad(b);
      && |u| == |e| - PadLength(|b|)
      && |u| == (4 * |b| + 2) / 3
      && u == ToUrlAlphabet(e)[..|u|]
  {
    var e := Encode(b);
    EncodeShape(b);
    var k := |e| - PadLength(|b|);
    EncodedLength(|b|);
    var r := ToUrlAlphabet(e);
    ToUrlAlphabetAt(e);
    if k > 0 {
      assert IsStdChar(e[k - 1]);
    }
    TrimPaddingAt(r, k);
  }

  /** Every character of the encoder's output is in the URL-safe alphabet: no '+', '/' or '='. */
  lemma UrlEncodeAlphabet(b: seq<byte>)
    ensures forall i :: 0 <= i < |UrlEncodeNoPad(b)| ==> IsUrlChar(UrlEncodeNoPad(b)[i])
  {
    UrlEncodeShape(b);
    EncodeShape(b);
    ToUrlAlphabetAt(Encode(b));
  }

  /** Restoring padding after the cut point gives back a padded encoding. */
  lemma RestorePadding(e: seq<char>, k: nat)
    requires k <= |e| && |e| % 4 == 0 && |e| - k < 4
    requires forall i :: k <= i < |e| ==> e[i] == '='
    ensures e[..k] + Padding(k) == e
  {
    var p := |e| - k;
    assert (k + p) % 4 == 0;
    assert |Padding(k)| == p;
  }

  /** Reversing the alphabet of the encoder's output gives the unpadded standard encoding. */
  lemma UrlAlphabetUndone(b: seq<byte>)
    ensures FromUrlAlphabet(UrlEncodeNoPad(b)) == Encode(b)[..|UrlEncodeNoPad(b)|]
  {
    var e := Encode(b);
    var u := UrlEncodeNoPad(b);
    UrlEncodeShape(b);
    EncodeShape(b);
    var core := e[..|u|];
    assert u == ToUrlAlphabet(core) by {
      ToUrlAlphabetAt(e);
      ToUrlAlphabetAt(core);
    }
    FromToUrlAlphabet(core);
  }

  /** Padding the cut standard encoding again gives the whole standard encoding. */
  lemma PaddingRestored(b: seq<byte>)
    ensures var e := Encode(b); var k := |UrlEncodeNoPad(b)|;
      k <= |e| && e[..k] + Padding(k) == e
  {
    var e := Encode(b);
    var k := |UrlEncodeNoPad(b)|;
    var p := PadLength(|b|);
    UrlEncodeShape(b);
    EncodeShape(b);
    assert k == |e| - p && p <= 2;
    assert forall i :: k <= i < |e| ==> e[i] == '=';
    RestorePadding(e, k);
  }

  /** The receiver's decoding recovers the octets. */
  lemma UrlRoundTrip(b: seq<byte>)
    ensures UrlDecodeNoPad(UrlEncodeNoPad(b)) == Some(b)
  {
    UrlAlphabetUndone(b);
    PaddingRestored(b);
    DecodeEncode(b);
  }
}
