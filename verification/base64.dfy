/** Base64 as the message encoder uses it: the standard alphabet with `=`
    padding of RFC 4648 section 4 for the Subject encoded-word, and the
    URL-safe alphabet of RFC 4648 section 5 without padding (section 3.2)
    for the whole message. The decoders are the receiving side's view and
    serve to state the round trips. */
module Base64 {
  import opened Results
  import opened Bytes

  const Pad: Byte := 61         // '='
  const Plus: Byte := 43        // '+'
  const Slash: Byte := 47       // '/'
  const Minus: Byte := 45       // '-'
  const Underscore: Byte := 95  // '_'

  type Sextet = v: int | 0 <= v < 64

  /** The character for a 6-bit value in the standard alphabet. */
  function Char(v: Sextet): (c: Byte)
    ensures c != Pad && c != Minus && c != Underscore
  {
    if v < 26 then 65 + v        // 'A'..'Z'
    else if v < 52 then v + 71   // 'a'..'z'
    else if v < 62 then v - 4    // '0'..'9'
    else if v == 62 then Plus
    else Slash
  }

  /** The 6-bit value of a standard-alphabet character, if it is one. */
  function ValueOf(c: Byte): (r: Option<Sextet>)
    ensures r.Some? ==> Char(r.value) == c
  {
    if 65 <= c <= 90 then Some(c - 65)
    else if 97 <= c <= 122 then Some(c - 71)
    else if 48 <= c <= 57 then Some(c + 4)
    else if c == Plus then Some(62)
    else if c == Slash then Some(63)
    else None
  }

  predicate IsStdChar(c: Byte) {
    ValueOf(c).Some?
  }

  /** Every 6-bit value is recovered from its character. */
  lemma ValueOfChar(v: Sextet)
    ensures ValueOf(Char(v)) == Some(v)
  {
  }

  /** Padding characters that complete the last group of four. */
  function PadCount(n: nat): nat {
    (3 - n % 3) % 3
  }

  function Pads(n: nat): (r: seq<Byte>)
    ensures |r| == n && forall i | 0 <= i < n :: r[i] == Pad
  {
    seq(n, i => Pad)
  }

  /** Three bytes as four characters: 24 bits cut into four 6-bit values. */
  function EncodeTriple(a: Byte, b: Byte, c: Byte): seq<Byte> {
    [Char(a / 4), Char((a % 4) * 16 + b / 16), Char((b % 16) * 4 + c / 64), Char(c % 64)]
  }

  /** Standard base64 with padding, as `Buffer.toString('base64')` produces it. */
  function Encode(b: seq<Byte>): (r: seq<Byte>)
    decreases |b|
    ensures |r| == (|b| + 2) / 3 * 4
    ensures forall i | 0 <= i < |r| - PadCount(|b|) :: IsStdChar(r[i])
    ensures forall i | |r| - PadCount(|b|) <= i < |r| :: r[i] == Pad
  {
    if |b| == 0 then []
    else if |b| == 1 then
      var a := b[0];
      EncodeTripleChars(a, 0, 0);
      [Char(a / 4), Char((a % 4) * 16), Pad, Pad]
    else if |b| == 2 then
      var a, c := b[0], b[1];
      EncodeTripleChars(a, c, 0);
      [Char(a / 4), Char((a % 4) * 16 + c / 16), Char((c % 16) * 4), Pad]
    else
      var head := EncodeTriple(b[0], b[1], b[2]);
      var tail := Encode(b[3..]);
      EncodeTripleChars(b[0], b[1], b[2]);
      PrependGroup(head, tail, |b| - 3);
      head + tail
  }

  /** Putting a full group of four characters in front of an encoding of
      `n` bytes gives the shape of an encoding of `n + 3` bytes. */
  lemma PrependGroup(head: seq<Byte>, tail: seq<Byte>, n: nat)
    requires |head| == 4 && forall i | 0 <= i < 4 :: IsStdChar(head[i])
    requires |tail| == (n + 2) / 3 * 4
    requires forall i | 0 <= i < |tail| - PadCount(n) :: IsStdChar(tail[i])
    requires forall i | |tail| - PadCount(n) <= i < |tail| :: tail[i] == Pad
    ensures |head + tail| == (n + 5) / 3 * 4
    ensures PadCount(n + 3) == PadCount(n)
    ensures forall i | 0 <= i < |head + tail| - PadCount(n) :: IsStdChar((head + tail)[i])
    ensures forall i | |head + tail| - PadCount(n) <= i < |head + tail| :: (head + tail)[i] == Pad
  {
  }

  lemma EncodeTripleChars(a: Byte, b: Byte, c: Byte)
    ensures forall i | 0 <= i < 4 :: IsStdChar(EncodeTriple(a, b, c)[i])
  {
    ValueOfChar(a / 4);
    ValueOfChar((a % 4) * 16 + b / 16);
    ValueOfChar((b % 16) * 4 + c / 64);
    ValueOfChar(c % 64);
  }

  /** The three bytes whose bits the four 6-bit values `v0`..`v3` carry. */
  function Byte0(v0: Sextet, v1: Sextet): Byte { (v0 as int) * 4 + (v1 as int) / 16 }
  function Byte1(v1: Sextet, v2: Sextet): Byte { ((v1 as int) % 16) * 16 + (v2 as int) / 4 }
  function Byte2(v2: Sextet, v3: Sextet): Byte { ((v2 as int) % 4) * 64 + v3 as int }

  /** Four standard characters back to three bytes. */
  function DecodeQuad(c0: Byte, c1: Byte, c2: Byte, c3: Byte): Option<seq<Byte>> {
    match (ValueOf(c0), ValueOf(c1), ValueOf(c2), ValueOf(c3))
    case (Some(v0), Some(v1), Some(v2), Some(v3)) =>
      Some([Byte0(v0, v1), Byte1(v1, v2), Byte2(v2, v3)])
    case _ => None
  }

  /** The last group of four, which may end in one or two padding
      characters. The bits of the last character that carry no byte must be
      zero, so that only the canonical encoding is accepted (section 3.5 of
      RFC 4648). */
  function DecodeLast(q: seq<Byte>): Option<seq<Byte>>
    requires |q| == 4
  {
    if q[2] == Pad && q[3] == Pad then
      match (ValueOf(q[0]), ValueOf(q[1]))
      case (Some(v0), Some(v1)) =>
        if (v1 as int) % 16 == 0 then Some([Byte0(v0, v1)]) else None
      case _ => None
    else if q[3] == Pad then
      match (ValueOf(q[0]), ValueOf(q[1]), ValueOf(q[2]))
      case (Some(v0), Some(v1), Some(v2)) =>
        if (v2 as int) % 4 == 0 then Some([Byte0(v0, v1), Byte1(v1, v2)]) else None
      case _ => None
    else DecodeQuad(q[0], q[1], q[2], q[3])
  }

  /** Standard base64 decoding; `None` for text that is not padded base64. */
  function Decode(s: seq<Byte>): Option<seq<Byte>>
    decreases |s|
  {
    if |s| == 0 then Some([])
    else if |s| < 4 then None
    else if |s| == 4 then DecodeLast(s)
    else
      match DecodeQuad(s[0], s[1], s[2], s[3])
      case None => None
      case Some(head) =>
        match Decode(s[4..])
        case None => None
        case Some(tail) => Some(head + tail)
  }

  /** The bit arithmetic of one group: cutting three bytes into sextets and
      gluing the sextets back gives the bytes again. */
  lemma TripleBits(a: Byte, b: Byte, c: Byte)
    ensures (a / 4) * 4 + ((a % 4) * 16 + b / 16) / 16 == a
    ensures (((a % 4) * 16 + b / 16) % 16) * 16 + ((b % 16) * 4 + c / 64) / 4 == b
    ensures (((b % 16) * 4 + c / 64) % 4) * 64 + c % 64 == c
  {
  }

  lemma DecodeTriple(a: Byte, b: Byte, c: Byte)
    ensures DecodeQuad(Char(a / 4), Char((a % 4) * 16 + b / 16),
                       Char((b % 16) * 4 + c / 64), Char(c % 64)) == Some([a, b, c])
  {
    var v0: Sextet, v1: Sextet := a / 4, (a % 4) * 16 + b / 16;
    var v2: Sextet, v3: Sextet := (b % 16) * 4 + c / 64, c % 64;
    ValueOfChar(v0);
    ValueOfChar(v1);
    ValueOfChar(v2);
    ValueOfChar(v3);
    assert Byte0(v0, v1) == a && Byte1(v1, v2) == b && Byte2(v2, v3) == c by {
      TripleBits(a, b, c);
    }
  }

  lemma DecodeEncodeOne(a: Byte)
    ensures Decode(Encode([a])) == Some([a])
  {
    var v0, v1 := a / 4, (a % 4) * 16;
    ValueOfChar(v0);
    ValueOfChar(v1);
    TripleBits(a, 0, 0);
    assert Encode([a]) == [Char(v0), Char(v1), Pad, Pad];
  }

  lemma DecodeEncodeTwo(a: Byte, b: Byte)
    ensures Decode(Encode([a, b])) == Some([a, b])
  {
    var v0, v1, v2 := a / 4, (a % 4) * 16 + b / 16, (b % 16) * 4;
    ValueOfChar(v0);
    ValueOfChar(v1);
    ValueOfChar(v2);
    TripleBits(a, b, 0);
    assert Encode([a, b]) == [Char(v0), Char(v1), Char(v2), Pad];
    assert DecodeLast([Char(v0), Char(v1), Char(v2), Pad]) == Some([Byte0(v0, v1), Byte1(v1, v2)]);
  }

  /** Decoding a text that starts with a full group of four reads that
      group and then the rest. */
  lemma DecodeStep(b: seq<Byte>)
    requires |b| >= 3
    requires Decode(Encode(b[3..])) == Some(b[3..])
    ensures Decode(Encode(b)) == Some(b)
  {
    var rest := b[3..];
    var head := EncodeTriple(b[0], b[1], b[2]);
    var tail := Encode(rest);
    assert Encode(b) == head + tail;
    assert DecodeQuad(head[0], head[1], head[2], head[3]) == Some([b[0], b[1], b[2]]) by {
      DecodeTriple(b[0], b[1], b[2]);
    }
    DecodeQuadThenRest(head, tail, [b[0], b[1], b[2]], rest);
    SplitThree(b);
  }

  lemma SplitThree(b: seq<Byte>)
    requires |b| >= 3
    ensures b == [b[0], b[1], b[2]] + b[3..]
  {
  }

  /** A group of four unpadded characters followed by more text is read as
      a full group, then the rest is decoded. */
  lemma DecodeQuadThenRest(q: seq<Byte>, t: seq<Byte>, x: seq<Byte>, y: seq<Byte>)
    requires |q| == 4 && q[2] != Pad && q[3] != Pad
    requires DecodeQuad(q[0], q[1], q[2], q[3]) == Some(x)
    requires Decode(t) == Some(y)
    ensures Decode(q + t) == Some(x + y)
  {
    var s := q + t;
    if t == [] {
      assert s == q;
      assert y == [];
      assert x + y == x;
    } else {
      assert s[0] == q[0] && s[1] == q[1] && s[2] == q[2] && s[3] == q[3];
      assert s[4..] == t;
    }
  }

  /** Decoding the standard encoding gives back the bytes. */
  lemma {:induction false} DecodeEncode(b: seq<Byte>)
    decreases |b|
    ensures Decode(Encode(b)) == Some(b)
  {
    if |b| == 1 {
      assert b == [b[0]];
      DecodeEncodeOne(b[0]);
    } else if |b| == 2 {
      assert b == [b[0], b[1]];
      DecodeEncodeTwo(b[0], b[1]);
    } else if |b| >= 3 {
      DecodeEncode(b[3..]);
      DecodeStep(b);
    }
  }

  /** The bit arithmetic of one group read the other way: four sextets glued
      into three bytes and cut again give the sextets back. */
  lemma SextetBits(v0: Sextet, v1: Sextet, v2: Sextet, v3: Sextet)
    ensures Byte0(v0, v1) / 4 == v0
    ensures (Byte0(v0, v1) % 4) * 16 + Byte1(v1, v2) / 16 == v1
    ensures (Byte1(v1, v2) % 16) * 4 + Byte2(v2, v3) / 64 == v2
    ensures Byte2(v2, v3) % 64 == v3
  {
  }

  lemma EncodeQuad(c0: Byte, c1: Byte, c2: Byte, c3: Byte)
    requires DecodeQuad(c0, c1, c2, c3).Some?
    ensures var x := DecodeQuad(c0, c1, c2, c3).value;
      |x| == 3 && EncodeTriple(x[0], x[1], x[2]) == [c0, c1, c2, c3]
  {
    var v0, v1 := ValueOf(c0).value, ValueOf(c1).value;
    var v2, v3 := ValueOf(c2).value, ValueOf(c3).value;
    SextetBits(v0, v1, v2, v3);
  }

  /** A last group that decodes is the encoding of what it decodes to. */
  lemma EncodeLast(q: seq<Byte>)
    requires |q| == 4 && DecodeLast(q).Some?
    ensures Encode(DecodeLast(q).value) == q
  {
    if q[2] == Pad && q[3] == Pad {
      var v0, v1 := ValueOf(q[0]).value, ValueOf(q[1]).value;
      SextetBits(v0, v1, 0, 0);
      assert Encode([Byte0(v0, v1)]) == [Char(v0), Char(v1), Pad, Pad];
    } else if q[3] == Pad {
      var v0, v1, v2 := ValueOf(q[0]).value, ValueOf(q[1]).value, ValueOf(q[2]).value;
      SextetBits(v0, v1, v2, 0);
      assert Encode([Byte0(v0, v1), Byte1(v1, v2)]) == [Char(v0), Char(v1), Char(v2), Pad];
    } else {
      var x := DecodeQuad(q[0], q[1], q[2], q[3]).value;
      EncodeQuad(q[0], q[1], q[2], q[3]);
      assert x[3..] == [];
      assert Encode(x) == EncodeTriple(x[0], x[1], x[2]) + Encode(x[3..]);
    }
  }

  /** Decoding only ever gives back nothing for the empty text. */
  lemma DecodeNonEmpty(s: seq<Byte>)
    requires |s| > 0 && Decode(s).Some?
    ensures |Decode(s).value| > 0
  {
    if |s| == 4 {
      assert |DecodeLast(s).value| > 0;
    }
  }

  /** Standard base64 text that decodes is the encoding of its bytes: the
      decoder accepts no text but the one `Encode` produces. */
  lemma {:induction false} EncodeDecode(s: seq<Byte>)
    requires Decode(s).Some?
    ensures Encode(Decode(s).value) == s
    decreases |s|
  {
    if |s| == 4 {
      EncodeLast(s);
    } else if |s| > 4 {
      var x := DecodeQuad(s[0], s[1], s[2], s[3]).value;
      var rest := s[4..];
      var y := Decode(rest).value;
      var b := Decode(s).value;
      assert b == x + y;
      EncodeQuad(s[0], s[1], s[2], s[3]);
      EncodeDecode(rest);
      DecodeNonEmpty(rest);
      assert b[3..] == y;
      assert Encode(b) == EncodeTriple(b[0], b[1], b[2]) + Encode(b[3..]);
      assert s == [s[0], s[1], s[2], s[3]] + rest;
    }
  }

  /** A character of the URL-safe alphabet. */
  predicate IsUrlChar(c: Byte) {
    (65 <= c <= 90) || (97 <= c <= 122) || (48 <= c <= 57) || c == Minus || c == Underscore
  }

  /** Every `from` byte replaced by `to`, as a global one-character
      `replace(/x/g, y)` does. */
  function ReplaceByte(s: seq<Byte>, from: Byte, to: Byte): (r: seq<Byte>)
    ensures |r| == |s|
    ensures forall i | 0 <= i < |s| :: r[i] == (if s[i] == from then to else s[i])
  {
    seq(|s|, i requires 0 <= i < |s| => if s[i] == from then to else s[i])
  }

  /** The standard alphabet rewritten into the URL-safe one. */
  function ToUrlAlphabet(s: seq<Byte>): seq<Byte> {
    ReplaceByte(ReplaceByte(s, Plus, Minus), Slash, Underscore)
  }

  /** The URL-safe alphabet rewritten back into the standard one. */
  function FromUrlAlphabet(s: seq<Byte>): seq<Byte> {
    ReplaceByte(ReplaceByte(s, Minus, Plus), Underscore, Slash)
  }

  /** The trailing run of `=` removed, as `replace(/=+$/, '')` does. */
  function StripPadding(s: seq<Byte>): (r: seq<Byte>)
    decreases |s|
  {
    if |s| > 0 && s[|s| - 1] == Pad then StripPadding(s[..|s| - 1]) else s
  }

  /** Padding put back so that the length is a multiple of four. */
  function Repad(s: seq<Byte>): seq<Byte> {
    s + Pads((4 - |s| % 4) % 4)
  }

  /** The part of the standard encoding before its padding. */
  function EncodeCore(b: seq<Byte>): (r: seq<Byte>)
    ensures Encode(b) == r + Pads(PadCount(|b|))
    ensures forall i | 0 <= i < |r| :: IsStdChar(r[i])
  {
    var e := Encode(b);
    var r := e[..|e| - PadCount(|b|)];
    assert e == r + Pads(PadCount(|b|));
    r
  }

  /** Stripping removes exactly the padding appended to a text that does not
      itself end in `=`. */
  lemma {:induction false} StripAppendedPads(x: seq<Byte>, n: nat)
    requires |x| == 0 || x[|x| - 1] != Pad
    ensures StripPadding(x + Pads(n)) == x
    decreases n
  {
    if n > 0 {
      assert (x + Pads(n))[..|x| + n - 1] == x + Pads(n - 1);
      StripAppendedPads(x, n - 1);
    } else {
      assert x + Pads(0) == x;
    }
  }

  /** The rewrite into the URL-safe alphabet leaves padding in place. */
  lemma UrlAlphabetKeepsPads(x: seq<Byte>, n: nat)
    ensures ToUrlAlphabet(x + Pads(n)) == ToUrlAlphabet(x) + Pads(n)
  {
  }

  /** Before stripping, the URL-safe text is the rewritten core followed by
      the padding; stripping leaves the rewritten core. */
  lemma StripUrlPadding(b: seq<Byte>)
    ensures StripPadding(ToUrlAlphabet(Encode(b))) == ToUrlAlphabet(EncodeCore(b))
  {
    var core := EncodeCore(b);
    var p := PadCount(|b|);
    var url := ToUrlAlphabet(core);
    UrlAlphabetKeepsPads(core, p);
    assert |url| > 0 ==> url[|url| - 1] != Pad by {
      if |url| > 0 {
        assert IsStdChar(core[|core| - 1]);
      }
    }
    StripAppendedPads(url, p);
  }

  lemma UnpaddedLength(n: nat)
    ensures (n + 2) / 3 * 4 - PadCount(n) == (4 * n + 2) / 3
  {
    var q, r := n / 3, n % 3;
    assert n == 3 * q + r;
    if r == 0 {
      assert (n + 2) / 3 == q && (4 * n + 2) / 3 == 4 * q;
    } else if r == 1 {
      assert (n + 2) / 3 == q + 1 && (4 * n + 2) / 3 == 4 * q + 2;
    } else {
      assert (n + 2) / 3 == q + 1 && (4 * n + 2) / 3 == 4 * q + 3;
    }
  }

  /** Re-padding the unpadded text restores as many `=` as were stripped. */
  lemma RepadCount(n: nat)
    ensures (4 - ((4 * n + 2) / 3) % 4) % 4 == PadCount(n)
  {
    var q, r := n / 3, n % 3;
    assert n == 3 * q + r;
    if r == 0 {
      assert (4 * n + 2) / 3 == 4 * q;
    } else if r == 1 {
      assert (4 * n + 2) / 3 == 4 * q + 2;
    } else {
      assert (4 * n + 2) / 3 == 4 * q + 3;
    }
  }

  /** The rewritten standard characters are URL-safe characters. */
  lemma UrlCoreChars(core: seq<Byte>)
    requires forall i | 0 <= i < |core| :: IsStdChar(core[i])
    ensures forall i | 0 <= i < |core| :: IsUrlChar(ToUrlAlphabet(core)[i])
  {
  }

  /** URL-safe base64 without padding: standard base64, then `+` to `-`, `/`
      to `_`, then the trailing `=` run stripped. */
  function EncodeUrl(b: seq<Byte>): (r: seq<Byte>)
    ensures |r| == (4 * |b| + 2) / 3
    ensures forall i | 0 <= i < |r| :: IsUrlChar(r[i])
  {
    StripUrlPadding(b);
    UnpaddedLength(|b|);
    UrlCoreChars(EncodeCore(b));
    StripPadding(ToUrlAlphabet(Encode(b)))
  }

  /** The receiving side of `EncodeUrl`: back to the standard alphabet,
      padding restored, then decoded. */
  function DecodeUrl(s: seq<Byte>): (r: Option<seq<Byte>>)
    ensures r.Some? ==> forall i | 0 <= i < |s| :: IsUrlChar(s[i])
  {
    if forall i | 0 <= i < |s| :: IsUrlChar(s[i]) then Decode(Repad(FromUrlAlphabet(s)))
    else None
  }

  /** Rewriting standard characters into the URL-safe alphabet and back is
      the identity. */
  lemma UrlAlphabetRoundTrip(core: seq<Byte>)
    requires forall i | 0 <= i < |core| :: IsStdChar(core[i])
    ensures FromUrlAlphabet(ToUrlAlphabet(core)) == core
  {
    forall i | 0 <= i < |core|
      ensures FromUrlAlphabet(ToUrlAlphabet(core))[i] == core[i]
    {
      assert Char(ValueOf(core[i]).value) == core[i];
    }
  }

  /** The URL-safe encoding of a message decodes back to the message. */
  lemma DecodeUrlEncodeUrl(b: seq<Byte>)
    ensures DecodeUrl(EncodeUrl(b)) == Some(b)
  {
    var core := EncodeCore(b);
    assert FromUrlAlphabet(EncodeUrl(b)) == core by {
      StripUrlPadding(b);
      UrlAlphabetRoundTrip(core);
    }
    assert Repad(core) == Encode(b) by {
      UnpaddedLength(|b|);
      RepadCount(|b|);
    }
    DecodeEncode(b);
  }

  /** The URL-safe alphabet rewritten into the standard one and back is the
      identity. */
  lemma StdAlphabetRoundTrip(s: seq<Byte>)
    requires forall i | 0 <= i < |s| :: IsUrlChar(s[i])
    ensures forall i | 0 <= i < |s| :: IsStdChar(FromUrlAlphabet(s)[i])
    ensures ToUrlAlphabet(FromUrlAlphabet(s)) == s
  {
    forall i | 0 <= i < |s|
      ensures IsStdChar(FromUrlAlphabet(s)[i])
    {
      assert ValueOf(FromUrlAlphabet(s)[i]).Some?;
    }
  }

  /** Two texts without `=` that become equal once padded are equal. */
  lemma SamePadded(x: seq<Byte>, m: nat, y: seq<Byte>, n: nat)
    requires forall i | 0 <= i < |x| :: x[i] != Pad
    requires forall i | 0 <= i < |y| :: y[i] != Pad
    requires x + Pads(m) == y + Pads(n)
    ensures x == y
  {
    var e := x + Pads(m);
    assert forall i | 0 <= i < |e| :: (e[i] == Pad <==> |x| <= i);
    assert forall i | 0 <= i < |e| :: (e[i] == Pad <==> |y| <= i);
    var k := if |x| < |y| then |x| else |y|;
    assert k < |e| ==> ((e[k] == Pad <==> |x| <= k) && (e[k] == Pad <==> |y| <= k));
    assert x == e[..|x|] == y;
  }

  /** Standard text without padding, padded, that decodes is the unpadded
      part of the encoding of its bytes. */
  lemma RepaddedIsEncoding(t: seq<Byte>)
    requires forall i | 0 <= i < |t| :: IsStdChar(t[i])
    requires Decode(Repad(t)).Some?
    ensures t == EncodeCore(Decode(Repad(t)).value)
  {
    var b := Decode(Repad(t)).value;
    EncodeDecode(Repad(t));
    var core := EncodeCore(b);
    SamePadded(t, (4 - |t| % 4) % 4, core, PadCount(|b|));
  }

  /** URL-safe text that decodes is exactly the URL-safe encoding of its
      bytes: no other text of the alphabet stands for the same message. */
  lemma EncodeUrlDecodeUrl(s: seq<Byte>)
    requires DecodeUrl(s).Some?
    ensures EncodeUrl(DecodeUrl(s).value) == s
  {
    var t := FromUrlAlphabet(s);
    var b := DecodeUrl(s).value;
    StdAlphabetRoundTrip(s);
    RepaddedIsEncoding(t);
    StripUrlPadding(b);
  }

  /** The test vectors of section 10 of RFC 4648 that end in padding. */
  lemma PaddedTestVectors()
    ensures Encode(Ascii("")) == Ascii("")
    ensures Encode(Ascii("f")) == Ascii("Zg==")
    ensures Encode(Ascii("fo")) == Ascii("Zm8=")
  {
  }

  /** The unpadded test vector of section 10 of RFC 4648 of one group. */
  lemma TestVectorFoo()
    ensures Encode(Ascii("foo")) == Ascii("Zm9v")
  {
  }

  /** The test vectors of section 10 of RFC 4648 longer than one group. */
  lemma TestVectorFoob()
    ensures Encode(Ascii("foob")) == Ascii("Zm9vYg==")
  {
  }

  lemma TestVectorFooba()
    ensures Encode(Ascii("fooba")) == Ascii("Zm9vYmE=")
  {
  }

  lemma TestVectorFoobar()
    ensures Encode(Ascii("foobar")) == Ascii("Zm9vYmFy")
  {
    FoobarBytes();
    EncodeFoobarBytes();
  }

  lemma FoobarBytes()
    ensures Ascii("foobar") == [102, 111, 111, 98, 97, 114]
    ensures Ascii("Zm9vYmFy") == [90, 109, 57, 118, 89, 109, 70, 121]
  {
  }

  lemma EncodeFoobarBytes()
    ensures Encode([102, 111, 111, 98, 97, 114]) == [90, 109, 57, 118, 89, 109, 70, 121]
  {
  }

  /** Bytes whose encoding uses the two characters where the alphabets
      differ, and that needs padding: `+/8=` in the standard alphabet
      becomes `-_8` in the URL-safe one. */
  lemma UrlTestVector()
    ensures Encode([251, 255]) == Ascii("+/8=")
    ensures EncodeUrl([251, 255]) == Ascii("-_8")
  {
  }

  /** The URL-safe decoder refuses the standard alphabet's `+`, `/` and its
      `=` padding: `+/8` and `Zg==` are not read as `-_8` and `Zg`. */
  lemma UrlDecoderRefusesStandardText()
    ensures DecodeUrl([43, 47, 56]) == None
    ensures DecodeUrl([90, 103, 61, 61]) == None
    ensures DecodeUrl([45, 95, 56]) == Some([251, 255])
  {
    UrlTestVector();
    DecodeUrlEncodeUrl([251, 255]);
    assert !IsUrlChar(43);
    assert !IsUrlChar(61);
  }
}
