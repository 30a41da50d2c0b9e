/** The hand-written DER of ECDSA signatures (middleware/audit/crypto.go): Ecdsa-Sig-Value of
    section 2.2.3 of RFC 3279, a SEQUENCE of two INTEGERs. */
module Der {
  import opened Bytes
  import opened Seqs

  // ---------------------------------------------------------- big integers

  /** big.Int.Bytes of n: no leading zero, nothing for zero. */
  function Magnitude(n: nat): bytes {
    if n == 0 then [] else Magnitude(n / 256) + [n % 256]
  }

  lemma {:induction false} NumberOfMagnitude(n: nat)
    ensures Number(Magnitude(n)) == n
  {
    if n > 0 {
      NumberOfMagnitude(n / 256);
      assert Magnitude(n)[..|Magnitude(n)| - 1] == Magnitude(n / 256);
    }
  }

  lemma {:induction false} MagnitudeLeads(n: nat)
    requires n > 0
    ensures |Magnitude(n)| > 0 && Magnitude(n)[0] > 0
  {
    if n >= 256 { MagnitudeLeads(n / 256); }
  }

  lemma {:induction false} LeadingZero(s: bytes)
    ensures Number([0] + s) == Number(s)
  {
    if s != [] {
      LeadingZero(s[..|s| - 1]);
      assert ([0] + s)[..|s|] == [0] + s[..|s| - 1];
    }
  }

  /** Bytes without a leading zero are the magnitude of their number. */
  lemma {:induction false} MagnitudeOfNumber(s: bytes)
    requires s == [] || s[0] > 0
    ensures Magnitude(Number(s)) == s
    ensures s != [] ==> Number(s) > 0
  {
    if s != [] {
      var front := s[..|s| - 1];
      MagnitudeOfNumber(front);
      var last: int := s[|s| - 1];
      assert Number(s) == Number(front) * 256 + last;
      assert Number(s) / 256 == Number(front) && Number(s) % 256 == last;
      assert s == front + [s[|s| - 1]];
    }
  }

  /** Dropping low bytes divides at least by 256. */
  lemma {:induction false} PrefixIsSmaller(s: bytes, k: nat)
    requires k < |s|
    ensures Number(s[..k]) * 256 <= Number(s)
  {
    var front := s[..|s| - 1];
    if k < |s| - 1 {
      PrefixIsSmaller(front, k);
      assert front[..k] == s[..k];
    }
  }

  lemma {:induction false} MagnitudeLength(n: nat, k: nat)
    requires n < Power256(k)
    ensures |Magnitude(n)| <= k
  {
    if n > 0 {
      MagnitudeLength(n / 256, k - 1);
    }
  }

  // -------------------------------------------------------------- encoding

  function Abs(x: int): nat {
    if x < 0 then -x else x
  }

  /** Contents of one INTEGER: the magnitude, with a zero byte in front when its high
      bit is set. The sign of x is not looked at. */
  function Content(x: int): bytes {
    var b := Magnitude(Abs(x));
    if |b| > 0 && b[0] >= 0x80 then [0] + b else b
  }

  function Integer(content: bytes): bytes {
    [2, |content| % 256] + content
  }

  function Encoded(r: int, s: int): bytes {
    var rb, sb := Content(r), Content(s);
    [0x30, (2 + |rb| + 2 + |sb|) % 256] + Integer(rb) + Integer(sb)
  }

  lemma ByteByByte(t: byte, rb: bytes, sb: bytes)
    ensures [0x30] + [t] + [2] + [|rb| % 256] + rb + [2] + [|sb| % 256] + sb
            == [0x30, t] + Integer(rb) + Integer(sb)
  {
  }

  method EncodeDER(r: int, s: int) returns (der: bytes)
    ensures der == Encoded(r, s)
  {
    var rb, sb := Magnitude(Abs(r)), Magnitude(Abs(s));
    if |rb| > 0 && rb[0] >= 0x80 {
      rb := [0] + rb;
    }
    if |sb| > 0 && sb[0] >= 0x80 {
      sb := [0] + sb;
    }
    der := [];
    der := der + [0x30];
    assert der == [0x30];
    der := der + [(2 + |rb| + 2 + |sb|) % 256];
    der := der + [2];
    der := der + [|rb| % 256];
    der := der + rb;
    der := der + [2];
    der := der + [|sb| % 256];
    der := der + sb;
    ByteByByte((2 + |rb| + 2 + |sb|) % 256, rb, sb);
  }

  // -------------------------------------------------------------- decoding

  /** The checks of DecodeDER, and the two contents they leave: the total length is a
      lower bound only, and whatever follows s is ignored. */
  function Contents(der: bytes): Option<(bytes, bytes)> {
    if |der| < 8 || der[0] != 0x30 then None
    else
      var totalLen: int := der[1];
      if |der| < 2 + totalLen || der[2] != 2 then None
      else
        var rLen: int := der[3];
        if |der| < 4 + rLen then None
        else
          var at := 4 + rLen;
          if |der| < at + 2 || der[at] != 2 then None
          else
            var sLen: int := der[at + 1];
            if |der| < at + 2 + sLen then None
            else Some((der[4..4 + rLen], der[at + 2..at + 2 + sLen]))
  }

  /** DecodeDER: leading zeros in a content are accepted. */
  function DecodeDER(der: bytes): Option<(nat, nat)> {
    match Contents(der)
    case None => None
    case Some((r, s)) => Some((Number(r), Number(s)))
  }

  /** der is an outer header, a first INTEGER with content r, a second one with content s,
      and anything after them; the outer length t is only a lower bound. */
  ghost predicate Laid(der: bytes, t: byte, r: bytes, s: bytes, tail: bytes) {
    && |r| <= 255 && |s| <= 255
    && der == [0x30, t, 2, |r|] + r + [2, |s|] + s + tail
    && |der| >= 8 && |der| >= 2 + t as int
  }

  /** What DecodeDER accepts, on any bytes, and the numbers it returns. */
  lemma DecodeAccepts(der: bytes)
    ensures DecodeDER(der).Some? <==> exists t, r, s, tail :: Laid(der, t, r, s, tail)
    ensures forall t, r, s, tail :: Laid(der, t, r, s, tail) ==> DecodeDER(der) == Some((Number(r), Number(s)))
  {
    if Contents(der).Some? {
      var (r, s) := Contents(der).value;
      FoundLaid(der);
      assert DecodeDER(der).Some?;
    }
    forall t, r, s, tail | Laid(der, t, r, s, tail) ensures DecodeDER(der) == Some((Number(r), Number(s))) {
      LaidFound(der, t, r, s, tail);
    }
  }

  lemma FoundLaid(der: bytes)
    requires Contents(der).Some?
    ensures exists t, r, s, tail :: Laid(der, t, r, s, tail)
  {
    var (r, s) := Contents(der).value;
    var at := 4 + |r|;
    var tail := der[at + 2 + |s|..];
    assert der[..4] == [0x30, der[1], 2, |r|];
    assert der[at..at + 2] == [2, |s|];
    assert der == der[..4] + der[4..at] + der[at..at + 2] + der[at + 2..at + 2 + |s|] + tail;
    assert Laid(der, der[1], r, s, tail);
  }

  lemma LaidFound(der: bytes, t: byte, r: bytes, s: bytes, tail: bytes)
    requires Laid(der, t, r, s, tail)
    ensures Contents(der) == Some((r, s))
  {
    var head, mid := [0x30, t, 2, |r|], [2, |s|];
    Layout(head, r, mid, s, tail);
    assert der[0] == der[..4][0] && der[1] == der[..4][1] && der[2] == der[..4][2] && der[3] == der[..4][3];
    assert der[4 + |r|] == mid[0] && der[5 + |r|] == mid[1];
  }

  lemma ContentNumber(x: int)
    ensures Number(Content(x)) == Abs(x)
    ensures Content(x) == [] <==> x == 0
  {
    var b := Magnitude(Abs(x));
    NumberOfMagnitude(Abs(x));
    LeadingZero(b);
  }

  /** der holds an encoding of the contents rb and sb: what a reader that trusts the
      one-byte lengths finds at which place. */
  ghost predicate Holds(der: bytes, t: byte, rb: bytes, sb: bytes, tail: nat) {
    var n, k := |rb| % 256, |sb| % 256;
    && |der| == 6 + |rb| + |sb| + tail
    && der[0] == 0x30 && der[1] == t && der[2] == 2 && der[3] == n
    && der[4..4 + n] == rb[..n]
    && (|rb| <= 255 ==> der[4 + n] == 2 && der[5 + n] == k && der[6 + n..6 + n + k] == sb[..k])
  }

  lemma Layout(head: bytes, rb: bytes, mid: bytes, sb: bytes, tail: bytes)
    requires |head| == 4 && |mid| == 2
    ensures var der, at := head + rb + mid + sb + tail, 4 + |rb|;
            && |der| == 6 + |rb| + |sb| + |tail|
            && der[..4] == head && der[4..at] == rb && der[at..at + 2] == mid && der[at + 2..at + 2 + |sb|] == sb
  {
  }

  lemma Fields(t: byte, rb: bytes, sb: bytes, tail: bytes)
    ensures Holds([0x30, t] + Integer(rb) + Integer(sb) + tail, t, rb, sb, |tail|)
  {
    var n, k := |rb| % 256, |sb| % 256;
    var head, mid := [0x30, t, 2, n], [2, k];
    var der := head + rb + mid + sb + tail;
    assert [0x30, t] + Integer(rb) + Integer(sb) + tail == der by {
      assert [0x30, t] + [2, n] == head;
    }
    Layout(head, rb, mid, sb, tail);
    assert der[0] == head[0] && der[1] == head[1] && der[2] == head[2] && der[3] == head[3];
    assert n <= |rb| && der[4..4 + n] == der[4..4 + |rb|][..n];
    if |rb| <= 255 {
      var at := 4 + |rb|;
      assert n == |rb| && der[at] == mid[0] && der[at + 1] == mid[1];
      assert k <= |sb| && der[at + 2..at + 2 + k] == der[at + 2..at + 2 + |sb|][..k];
    }
  }

  lemma PrefixNumber(b: bytes, k: nat)
    requires k < |b| && Number(b) > 0
    ensures Number(b[..k]) != Number(b)
  {
    PrefixIsSmaller(b, k);
  }

  lemma ContentsHeld(der: bytes, t: byte, rb: bytes, sb: bytes, tail: nat)
    requires Holds(der, t, rb, sb, tail) && t <= 4 + |rb| + |sb|
    ensures |rb| + |sb| + tail < 2 ==> Contents(der) == None
    ensures Contents(der).Some? ==> Contents(der).value.0 == rb[..|rb| % 256]
    ensures |rb| <= 255 && |rb| + |sb| + tail >= 2 ==> Contents(der) == Some((rb, sb[..|sb| % 256]))
  {
    if |rb| <= 255 {
      assert |rb| % 256 == |rb| && rb[..|rb|] == rb;
    }
  }

  lemma LongFirst(der: bytes, t: byte, rb: bytes, sb: bytes, tail: nat)
    requires Holds(der, t, rb, sb, tail) && t <= 4 + |rb| + |sb| && |rb| > 255 && Number(rb) > 0
    ensures DecodeDER(der).Some? ==> DecodeDER(der).value.0 != Number(rb)
  {
    var n := |rb| % 256;
    assert Contents(der).Some? ==> Contents(der).value.0 == rb[..n] by { ContentsHeld(der, t, rb, sb, tail); }
    assert Number(rb[..n]) != Number(rb) by { PrefixNumber(rb, n); }
  }

  lemma LongSecond(der: bytes, t: byte, rb: bytes, sb: bytes, tail: nat)
    requires Holds(der, t, rb, sb, tail) && t <= 4 + |rb| + |sb| && |rb| <= 255 < |sb| && Number(sb) > 0
    ensures DecodeDER(der).Some? && DecodeDER(der).value.1 != Number(sb)
  {
    var k := |sb| % 256;
    assert Contents(der) == Some((rb, sb[..k])) by { ContentsHeld(der, t, rb, sb, tail); }
    assert Number(sb[..k]) != Number(sb) by { PrefixNumber(sb, k); }
  }

  lemma BothFit(der: bytes, t: byte, rb: bytes, sb: bytes, tail: nat)
    requires Holds(der, t, rb, sb, tail) && t <= 4 + |rb| + |sb| && |rb| <= 255 && |sb| <= 255
    ensures DecodeDER(der) == if |rb| + |sb| + tail >= 2 then Some((Number(rb), Number(sb))) else None
  {
    assert |sb| % 256 == |sb| && sb[..|sb|] == sb;
    if |rb| + |sb| + tail >= 2 {
      assert Contents(der) == Some((rb, sb)) by { ContentsHeld(der, t, rb, sb, tail); }
    } else {
      assert Contents(der) == None by { ContentsHeld(der, t, rb, sb, tail); }
    }
  }

  lemma DecodeHeld(der: bytes, t: byte, rb: bytes, sb: bytes, tail: nat)
    requires Holds(der, t, rb, sb, tail) && t <= 4 + |rb| + |sb|
    requires (Number(rb) > 0 || rb == []) && (Number(sb) > 0 || sb == [])
    ensures DecodeDER(der) == Some((Number(rb), Number(sb)))
            <==> |rb| <= 255 && |sb| <= 255 && |rb| + |sb| + tail >= 2
  {
    if |rb| > 255 {
      LongFirst(der, t, rb, sb, tail);
    } else if |sb| > 255 {
      LongSecond(der, t, rb, sb, tail);
    } else {
      BothFit(der, t, rb, sb, tail);
    }
  }

  /** Decoding inverts encoding, trailing bytes or not, exactly when both numbers are
      non-negative, each content fits a one-byte length, and there are 8 bytes to look
      at. The sum of the lengths may exceed 255: DecodeDER does not need it. */
  lemma DerRoundTrip(r: int, s: int, tail: bytes)
    ensures var rb, sb := Content(r), Content(s);
            r >= 0 && s >= 0 && DecodeDER(Encoded(r, s) + tail) == Some((r, s))
            <==> r >= 0 && s >= 0 && |rb| <= 255 && |sb| <= 255 && |rb| + |sb| + |tail| >= 2
  {
    var rb, sb := Content(r), Content(s);
    var t := (2 + |rb| + 2 + |sb|) % 256;
    ContentNumber(r);
    ContentNumber(s);
    Fields(t, rb, sb, tail);
    DecodeHeld(Encoded(r, s) + tail, t, rb, sb, |tail|);
  }

  // ------------------------------------------------------ validity as DER

  /** Contents of a positive INTEGER, minimal per X.690 section 8.3.2. */
  predicate PositiveInteger(content: bytes) {
    && |content| > 0 && content[0] < 0x80
    && (content[0] == 0 ==> |content| > 1 && content[1] >= 0x80)
  }

  /** A SEQUENCE of two positive INTEGERs and nothing else, all lengths in the short
      form of X.690 section 8.1.3.4. */
  predicate StrictDer(x: bytes) {
    && |x| >= 8 && x[0] == 0x30 && x[1] < 0x80 && |x| - 2 == x[1]
    && x[2] == 2
    && var rLen: int := x[3];
       && 6 + rLen <= |x| && x[4 + rLen] == 2
       && var sLen: int := x[5 + rLen];
          && |x| == 6 + rLen + sLen
          && PositiveInteger(x[4..4 + rLen]) && PositiveInteger(x[6 + rLen..])
  }

  lemma ContentIsMinimal(x: int)
    requires x != 0
    ensures PositiveInteger(Content(x))
  {
    MagnitudeLeads(Abs(x));
  }

  lemma ContentOfMinimal(content: bytes)
    requires PositiveInteger(content)
    ensures Number(content) > 0 && Content(Number(content)) == content
  {
    if content[0] == 0 {
      var b := content[1..];
      assert content == [0] + b;
      LeadingZero(b);
      MagnitudeOfNumber(b);
    } else {
      MagnitudeOfNumber(content);
    }
  }

  lemma StrictHeld(der: bytes, t: byte, rb: bytes, sb: bytes)
    requires Holds(der, t, rb, sb, 0) && t == (4 + |rb| + |sb|) % 256
    ensures StrictDer(der) <==> PositiveInteger(rb) && PositiveInteger(sb) && 4 + |rb| + |sb| <= 127
  {
    if 4 + |rb| + |sb| <= 127 {
      assert rb[..|rb|] == rb && sb[..|sb|] == sb;
      assert der[6 + |rb|..6 + |rb| + |sb|] == der[6 + |rb|..];
    }
  }

  /** The output is valid minimal DER exactly when neither number is zero (zero gets no
      content at all) and everything fits the short length form. */
  lemma EncodedIsStrict(r: int, s: int)
    ensures StrictDer(Encoded(r, s)) <==> r != 0 && s != 0 && 4 + |Content(r)| + |Content(s)| <= 127
  {
    var rb, sb := Content(r), Content(s);
    var t := (2 + |rb| + 2 + |sb|) % 256;
    ContentNumber(r);
    ContentNumber(s);
    Fields(t, rb, sb, []);
    assert Encoded(r, s) + [] == Encoded(r, s);
    StrictHeld(Encoded(r, s), t, rb, sb);
    if r != 0 { ContentIsMinimal(r); }
    if s != 0 { ContentIsMinimal(s); }
  }

  lemma StrictContents(x: bytes)
    requires StrictDer(x)
    ensures Contents(x) == Some((x[4..4 + x[3] as int], x[6 + x[3] as int..]))
  {
    var n: int := x[3];
    assert x[6 + n..|x|] == x[6 + n..];
  }

  /** Strict DER is canonical: it is the encoding of what it decodes to. */
  lemma StrictIsCanonical(x: bytes)
    requires StrictDer(x)
    ensures DecodeDER(x).Some?
    ensures var (r, s) := DecodeDER(x).value; r > 0 && s > 0 && Encoded(r, s) == x
  {
    StrictContents(x);
    var (rb, sb) := Contents(x).value;
    ContentOfMinimal(rb);
    ContentOfMinimal(sb);
    Reassemble(x, rb, sb);
  }

  lemma Reassemble(x: bytes, rb: bytes, sb: bytes)
    requires |x| == 6 + |rb| + |sb| && |x| < 130
    requires x[0] == 0x30 && x[1] == |x| - 2 && x[2] == 2 && x[3] == |rb| && x[4..4 + |rb|] == rb
    requires x[4 + |rb|] == 2 && x[5 + |rb|] == |sb| && x[6 + |rb|..] == sb
    ensures x == [0x30, (2 + |rb| + 2 + |sb|) % 256] + Integer(rb) + Integer(sb)
  {
  }

  lemma ContentLength(x: nat)
    requires 0 < x < Power256(32)
    ensures 1 <= |Content(x)| <= 33
  {
    MagnitudeLength(x, 32);
    MagnitudeLeads(x);
  }

  /** P-256 signatures are always strict DER and always decode to themselves. */
  lemma P256Signatures(r: nat, s: nat)
    requires 0 < r < Power256(32) && 0 < s < Power256(32)
    ensures StrictDer(Encoded(r, s)) && |Encoded(r, s)| <= 72 && DecodeDER(Encoded(r, s)) == Some((r, s))
  {
    ContentLength(r);
    ContentLength(s);
    EncodedIsStrict(r, s);
    DerRoundTrip(r, s, []);
    assert Encoded(r, s) + [] == Encoded(r, s);
  }
}
