/**
 * Base64 as used through Convert.ToBase64String and Convert.FromBase64String:
 * the alphabet and the padded encoding of section 4 of RFC 4648, no line breaks.
 */
module Base64 {
  import opened Wrappers

  newtype byte = x: int | 0 <= x < 256

  const Pad: char := '='

  /** The digit for a 6-bit value: A-Z, a-z, 0-9, '+', '/' (the table in section 4 of RFC 4648). */
  function Digit(v: int): (c: char)
    requires 0 <= v < 64
  {
    if v < 26 then ('A' as int + v) as char
    else if v < 52 then ('a' as int + (v - 26)) as char
    else if v < 62 then ('0' as int + (v - 52)) as char
    else if v == 62 then '+'
    else '/'
  }

  /** The 6-bit value of a digit, or None for any other character. */
  function DigitValue(c: char): (r: Option<int>)
    ensures r.Some? ==> 0 <= r.value < 64 && Digit(r.value) == c
    ensures r.None? ==> forall v :: 0 <= v < 64 ==> Digit(v) != c
  {
    if 'A' <= c <= 'Z' then Some(c as int - 'A' as int)
    else if 'a' <= c <= 'z' then Some(c as int - 'a' as int + 26)
    else if '0' <= c <= '9' then Some(c as int - '0' as int + 52)
    else if c == '+' then Some(62)
    else if c == '/' then Some(63)
    else None
  }

  predicate IsDigit(c: char) {
    DigitValue(c).Some?
  }

  /** Every digit is decoded back to its value. */
  lemma DigitRoundTrip(v: int)
    requires 0 <= v < 64
    ensures DigitValue(Digit(v)) == Some(v)
  {
  }

  /** Neither the padding character, the field separator ';' nor white space is a digit. */
  lemma NotDigits()
    ensures !IsDigit(Pad) && !IsDigit(';')
    ensures !IsDigit(' ') && !IsDigit('\t') && !IsDigit('\r') && !IsDigit('\n')
  {
  }

  /** The four digits of the three bytes a, b, c. */
  function EncodeTriple(a: byte, b: byte, c: byte): (s: string)
  {
    [Digit(a as int / 4),
     Digit((a as int % 4) * 16 + b as int / 16),
     Digit((b as int % 16) * 4 + c as int / 64),
     Digit(c as int % 64)]
  }

  /** Convert.ToBase64String: each group of three bytes becomes four digits; a final
    * group of one or two bytes is zero-filled and padded with '=' to four characters. */
  function Encode(b: seq<byte>): (s: string)
    ensures |s| == 4 * ((|b| + 2) / 3)
    decreases |b|
  {
    if |b| == 0 then []
    else if |b| == 1 then
      [Digit(b[0] as int / 4), Digit((b[0] as int % 4) * 16), Pad, Pad]
    else if |b| == 2 then
      [Digit(b[0] as int / 4), Digit((b[0] as int % 4) * 16 + b[1] as int / 16),
       Digit((b[1] as int % 16) * 4), Pad]
    else
      EncodeTriple(b[0], b[1], b[2]) + Encode(b[3..])
  }

  /** The white space Convert.FromBase64String skips wherever it occurs. */
  predicate IsWhiteSpace(c: char) {
    c == ' ' || c == '\t' || c == '\r' || c == '\n'
  }

  /** The characters the decoder reads: s without its white space, the rest kept in order. */
  function StripWhiteSpace(s: string): (t: string)
    ensures |t| <= |s|
    ensures forall i :: 0 <= i < |t| ==> !IsWhiteSpace(t[i])
    ensures forall c :: c in t <==> c in s && !IsWhiteSpace(c)
    decreases |s|
  {
    if s == [] then []
    else
      assert s == [s[0]] + s[1..];
      if IsWhiteSpace(s[0]) then StripWhiteSpace(s[1..])
      else [s[0]] + StripWhiteSpace(s[1..])
  }

  /** One character is dropped if it is white space and kept otherwise. */
  lemma StripOne(c: char)
    ensures StripWhiteSpace([c]) == if IsWhiteSpace(c) then [] else [c]
  {
    assert [c][1..] == [];
  }

  /** Stripping works piecewise, so with StripOne it fixes the result on every input. */
  lemma {:induction false} StripAppend(a: string, b: string)
    ensures StripWhiteSpace(a + b) == StripWhiteSpace(a) + StripWhiteSpace(b)
    decreases |a|
  {
    if a == [] {
      assert a + b == b;
    } else {
      var ab := a + b;
      assert ab[0] == a[0] && ab[1..] == a[1..] + b;
      StripAppend(a[1..], b);
      if !IsWhiteSpace(a[0]) {
        calc {
          StripWhiteSpace(ab);
          [a[0]] + StripWhiteSpace(a[1..] + b);
          [a[0]] + (StripWhiteSpace(a[1..]) + StripWhiteSpace(b));
          ([a[0]] + StripWhiteSpace(a[1..])) + StripWhiteSpace(b);
        }
      }
    }
  }

  /** Three bytes from four digit values. */
  function Bytes3(v0: int, v1: int, v2: int, v3: int): (r: seq<byte>)
    requires 0 <= v0 < 64 && 0 <= v1 < 64 && 0 <= v2 < 64 && 0 <= v3 < 64
  {
    [(v0 * 4 + v1 / 16) as byte, ((v1 % 16) * 16 + v2 / 4) as byte, ((v2 % 4) * 64 + v3) as byte]
  }

  /** A group of four digits, none of them padding. */
  function DecodeQuad(c0: char, c1: char, c2: char, c3: char): (r: Option<seq<byte>>)
    ensures r.Some? <==> IsDigit(c0) && IsDigit(c1) && IsDigit(c2) && IsDigit(c3)
    ensures r.Some? ==> |r.value| == 3
  {
    match (DigitValue(c0), DigitValue(c1), DigitValue(c2), DigitValue(c3))
    case (Some(v0), Some(v1), Some(v2), Some(v3)) => Some(Bytes3(v0, v1, v2, v3))
    case _ => None
  }

  /** The last group, which may end in one or two padding characters; the bits of the
    * last digit that do not fill a byte are discarded. */
  function DecodeFinal(c0: char, c1: char, c2: char, c3: char): (r: Option<seq<byte>>)
    ensures r.Some? <==> IsDigit(c0) && IsDigit(c1) && (IsDigit(c2) || (c2 == Pad && c3 == Pad))
                         && (IsDigit(c3) || c3 == Pad)
    ensures r.Some? ==> 1 <= |r.value| <= 3
  {
    if c3 != Pad then DecodeQuad(c0, c1, c2, c3)
    else if c2 == Pad then
      match (DigitValue(c0), DigitValue(c1))
      case (Some(v0), Some(v1)) => Some([(v0 * 4 + v1 / 16) as byte])
      case _ => None
    else
      match (DigitValue(c0), DigitValue(c1), DigitValue(c2))
      case (Some(v0), Some(v1), Some(v2)) => Some(Bytes3(v0, v1, v2, 0)[..2])
      case _ => None
  }

  /** Groups of four characters, padding allowed in the last group only. */
  function DecodeGroups(t: string): (r: Option<seq<byte>>)
    decreases |t|
  {
    if t == [] then Some([])
    else if |t| < 4 then None
    else if |t| == 4 then DecodeFinal(t[0], t[1], t[2], t[3])
    else
      match (DecodeQuad(t[0], t[1], t[2], t[3]), DecodeGroups(t[4..]))
      case (Some(q), Some(rest)) => Some(q + rest)
      case _ => None
  }

  /** Convert.FromBase64String: None stands for the FormatException thrown on input
    * that, once white space is skipped, is not a whole number of four-character groups
    * of digits with at most two '=' at the very end. */
  function Decode(s: string): (r: Option<seq<byte>>)
    ensures r.Some? ==> forall c :: c in s && !IsWhiteSpace(c) ==> IsDigit(c) || c == Pad
  {
    var t := StripWhiteSpace(s);
    if |t| % 4 != 0 then None
    else
      DecodeGroupsAlphabet(t);
      DecodeGroups(t)
  }

  /** Groups decode only when every character is a digit or padding. */
  lemma {:induction false} DecodeGroupsAlphabet(t: string)
    ensures DecodeGroups(t).Some? ==> forall i :: 0 <= i < |t| ==> IsDigit(t[i]) || t[i] == Pad
    decreases |t|
  {
    if |t| > 4 {
      DecodeGroupsAlphabet(t[4..]);
      assert forall i :: 4 <= i < |t| ==> t[i] == t[4..][i - 4];
    }
  }

  /** Convert.FromBase64String's acceptance rule: once white space is skipped, the input is a
    * whole number of four-character groups, all digits except at most two '=' at the very end. */
  lemma DecodeAccepts(s: string)
    ensures Decode(s).Some? <==>
      var t := StripWhiteSpace(s);
      |t| % 4 == 0 && (DigitsThenPad(t, 0) || DigitsThenPad(t, 1) || DigitsThenPad(t, 2))
  {
    var t := StripWhiteSpace(s);
    if |t| % 4 == 0 {
      DecodeGroupsAccepts(t, |t| / 4);
    }
  }

  /** The acceptance rule on the groups, by induction on their number n. */
  lemma {:induction false} DecodeGroupsAccepts(t: string, n: nat)
    requires |t| == 4 * n
    ensures DecodeGroups(t).Some? <==>
      DigitsThenPad(t, 0) || DigitsThenPad(t, 1) || DigitsThenPad(t, 2)
    decreases n
  {
    if n == 1 {
      FinalAccepts(t);
    } else if n > 1 {
      DecodeGroupsAccepts(t[4..], n - 1);
      DigitsThenPadFront(t, 0);
      DigitsThenPadFront(t, 1);
      DigitsThenPadFront(t, 2);
    }
  }

  /** The last group decodes exactly when it is digits followed by at most two '='. */
  lemma FinalAccepts(t: string)
    requires |t| == 4
    ensures DecodeFinal(t[0], t[1], t[2], t[3]).Some? <==>
      DigitsThenPad(t, 0) || DigitsThenPad(t, 1) || DigitsThenPad(t, 2)
  {
    NotDigits();
    assert DigitsThenPad(t, 0) <==> IsDigit(t[0]) && IsDigit(t[1]) && IsDigit(t[2]) && IsDigit(t[3]);
    assert DigitsThenPad(t, 1) <==> IsDigit(t[0]) && IsDigit(t[1]) && IsDigit(t[2]) && t[3] == Pad;
    assert DigitsThenPad(t, 2) <==> IsDigit(t[0]) && IsDigit(t[1]) && t[2] == Pad && t[3] == Pad;
  }

  /** A group in front of at least one more group: the padding lies in the later groups, so
    * the whole is digits-then-padding exactly when the front group is all digits and the
    * rest is digits-then-padding. */
  lemma DigitsThenPadFront(t: string, pads: nat)
    requires |t| >= 8 && pads <= 2
    ensures DigitsThenPad(t, pads) <==>
      (forall i :: 0 <= i < 4 ==> IsDigit(t[i])) && DigitsThenPad(t[4..], pads)
  {
    assert forall i :: 4 <= i < |t| ==> t[i] == t[4..][i - 4];
  }

  // Properties of the encoding

  /** How the bits of three bytes split into four 6-bit digits and back. */
  lemma SplitBits(a: int, b: int, c: int)
    requires 0 <= a < 256 && 0 <= b < 256 && 0 <= c < 256
    ensures 0 <= (a % 4) * 16 + b / 16 < 64 && 0 <= (b % 16) * 4 + c / 64 < 64
    ensures (a / 4) * 4 + ((a % 4) * 16 + b / 16) / 16 == a
    ensures (((a % 4) * 16 + b / 16) % 16) * 16 + ((b % 16) * 4 + c / 64) / 4 == b
    ensures (((b % 16) * 4 + c / 64) % 4) * 64 + c % 64 == c
  {
    var v := (a % 4) * 16 + b / 16;
    assert v / 16 == a % 4;
    assert v % 16 == b / 16;
    var w := (b % 16) * 4 + c / 64;
    assert w / 4 == b % 16;
    assert w % 4 == c / 64;
  }

  lemma TripleDigits(a: byte, b: byte, c: byte)
    ensures forall i :: 0 <= i < 4 ==> IsDigit(EncodeTriple(a, b, c)[i])
  {
    SplitBits(a as int, b as int, c as int);
    DigitRoundTrip(a as int / 4);
    DigitRoundTrip((a as int % 4) * 16 + b as int / 16);
    DigitRoundTrip((b as int % 16) * 4 + c as int / 64);
    DigitRoundTrip(c as int % 64);
  }

  /** s is digits followed by exactly pads padding characters. */
  predicate DigitsThenPad(s: string, pads: nat) {
    pads <= |s| &&
    (forall i :: 0 <= i < |s| - pads ==> IsDigit(s[i])) &&
    (forall i :: |s| - pads <= i < |s| ==> s[i] == Pad)
  }

  /** The number of '=' the encoding of n bytes ends with. */
  function PadCount(n: nat): (k: nat)
  {
    if n % 3 == 0 then 0 else 3 - n % 3
  }

  lemma DigitsThenPadAppend(t: string, r: string, pads: nat)
    requires DigitsThenPad(t, 0) && DigitsThenPad(r, pads)
    ensures DigitsThenPad(t + r, pads)
  {
    var s := t + r;
    forall i | 0 <= i < |s| - pads ensures IsDigit(s[i]) {
      if i >= |t| {
        assert s[i] == r[i - |t|];
      }
    }
    forall i | |s| - pads <= i < |s| ensures s[i] == Pad {
      assert s[i] == r[i - |t|];
    }
  }

  lemma GroupDigitsThenPad(c0: char, c1: char, c2: char, c3: char, pads: nat)
    requires pads <= 2 && IsDigit(c0) && IsDigit(c1)
    requires if pads == 2 then c2 == Pad && c3 == Pad else IsDigit(c2) && (c3 == Pad <==> pads == 1)
    requires pads == 0 ==> IsDigit(c3)
    ensures DigitsThenPad([c0, c1, c2, c3], pads)
  {
  }

  lemma FinalDigitsThenPad(b: seq<byte>)
    requires 1 <= |b| <= 2
    ensures DigitsThenPad(Encode(b), PadCount(|b|))
  {
    var x := b[0] as int;
    var y := if |b| == 2 then b[1] as int else 0;
    SplitBits(x, y, 0);
    var v0, v1, v2 := x / 4, (x % 4) * 16 + y / 16, (y % 16) * 4;
    DigitRoundTrip(v0);
    DigitRoundTrip(v1);
    DigitRoundTrip(v2);
    NotDigits();
    if |b| == 1 {
      assert Encode(b) == [Digit(v0), Digit(v1), Pad, Pad];
      GroupDigitsThenPad(Digit(v0), Digit(v1), Pad, Pad, 2);
    } else {
      assert Encode(b) == [Digit(v0), Digit(v1), Digit(v2), Pad];
      GroupDigitsThenPad(Digit(v0), Digit(v1), Digit(v2), Pad, 1);
    }
  }

  /** The output is digits followed by as many '=' as the last group lacks bytes (none, one
    * or two), so it has no ';' and no white space. */
  lemma {:induction false} EncodeDigitsThenPad(b: seq<byte>)
    ensures DigitsThenPad(Encode(b), PadCount(|b|))
    decreases |b|
  {
    if |b| >= 3 {
      EncodeDigitsThenPad(b[3..]);
      TripleDigits(b[0], b[1], b[2]);
      EncodeFront(b);
      assert PadCount(|b[3..]|) == PadCount(|b|);
      DigitsThenPadAppend(EncodeTriple(b[0], b[1], b[2]), Encode(b[3..]), PadCount(|b|));
    } else if |b| > 0 {
      FinalDigitsThenPad(b);
    }
  }

  /** Every character of the output is a digit or '='. */
  lemma EncodeAlphabet(b: seq<byte>)
    ensures forall c :: c in Encode(b) ==> IsDigit(c) || c == Pad
  {
    EncodeDigitsThenPad(b);
    var s := Encode(b);
    forall c | c in s ensures IsDigit(c) || c == Pad {
      var i :| 0 <= i < |s| && s[i] == c;
    }
  }

  /** Encoded text has no white space for the decoder to skip. */
  lemma {:induction false} StripNoWhiteSpace(s: string)
    requires forall i :: 0 <= i < |s| ==> !IsWhiteSpace(s[i])
    ensures StripWhiteSpace(s) == s
    decreases |s|
  {
    if s != [] {
      StripNoWhiteSpace(s[1..]);
    }
  }

  lemma TripleRoundTrip(a: byte, b: byte, c: byte)
    ensures DecodeQuad(EncodeTriple(a, b, c)[0], EncodeTriple(a, b, c)[1],
                       EncodeTriple(a, b, c)[2], EncodeTriple(a, b, c)[3]) == Some([a, b, c])
  {
    SplitBits(a as int, b as int, c as int);
    DigitRoundTrip(a as int / 4);
    DigitRoundTrip((a as int % 4) * 16 + b as int / 16);
    DigitRoundTrip((b as int % 16) * 4 + c as int / 64);
    DigitRoundTrip(c as int % 64);
  }

  lemma FinalRoundTrip(b: seq<byte>)
    requires 1 <= |b| <= 2
    ensures |Encode(b)| == 4
    ensures DecodeFinal(Encode(b)[0], Encode(b)[1], Encode(b)[2], Encode(b)[3]) == Some(b)
  {
    var x := b[0] as int;
    var y := if |b| == 2 then b[1] as int else 0;
    SplitBits(x, y, 0);
    var v0, v1, v2 := x / 4, (x % 4) * 16 + y / 16, (y % 16) * 4;
    assert (y % 16) * 4 + 0 / 64 == v2;
    DigitRoundTrip(v0);
    DigitRoundTrip(v1);
    DigitRoundTrip(v2);
    NotDigits();
    if |b| == 1 {
      assert y / 16 == 0 && v1 == (x % 4) * 16;
      assert Encode(b) == [Digit(v0), Digit(v1), Pad, Pad];
      assert (v0 * 4 + v1 / 16) as byte == b[0];
      assert b == [b[0]];
    } else {
      assert Encode(b) == [Digit(v0), Digit(v1), Digit(v2), Pad];
      assert Bytes3(v0, v1, v2, 0)[..2] == [b[0], b[1]];
      assert b == [b[0], b[1]];
    }
  }

  lemma EncodeFront(b: seq<byte>)
    requires |b| >= 3
    ensures Encode(b) == EncodeTriple(b[0], b[1], b[2]) + Encode(b[3..])
  {
  }

  /** A complete group in front of further groups decodes on its own. */
  lemma DecodeGroupsFront(t: string, r: string, q: seq<byte>, rest: seq<byte>)
    requires |t| == 4
    requires DecodeQuad(t[0], t[1], t[2], t[3]) == Some(q)
    requires DecodeGroups(r) == Some(rest)
    requires r == [] ==> t[3] != Pad
    ensures DecodeGroups(t + r) == Some(q + rest)
  {
    if r == [] {
      assert rest == [] && t + r == t && q + rest == q;
    } else {
      assert (t + r)[4..] == r;
    }
  }

  lemma {:induction false} DecodeGroupsEncode(b: seq<byte>)
    ensures DecodeGroups(Encode(b)) == Some(b)
    decreases |b|
  {
    if |b| >= 3 {
      var t := EncodeTriple(b[0], b[1], b[2]);
      var r := Encode(b[3..]);
      EncodeFront(b);
      TripleRoundTrip(b[0], b[1], b[2]);
      TripleDigits(b[0], b[1], b[2]);
      NotDigits();
      DecodeGroupsEncode(b[3..]);
      DecodeGroupsFront(t, r, [b[0], b[1], b[2]], b[3..]);
      assert b == [b[0], b[1], b[2]] + b[3..];
    } else if |b| > 0 {
      FinalRoundTrip(b);
    }
  }

  /** The encoder's output is a whole number of four-character groups. */
  lemma EncodeGroups(b: seq<byte>)
    ensures |Encode(b)| % 4 == 0
  {
    var k := (|b| + 2) / 3;
    assert (4 * k) % 4 == 0;
  }

  /** Decoding inverts encoding: Convert.FromBase64String(Convert.ToBase64String(b)) == b. */
  lemma DecodeEncode(b: seq<byte>)
    ensures Decode(Encode(b)) == Some(b)
  {
    var s := Encode(b);
    EncodeAlphabet(b);
    NotDigits();
    assert forall i :: 0 <= i < |s| ==> !IsWhiteSpace(s[i]) by {
      forall i | 0 <= i < |s| ensures !IsWhiteSpace(s[i]) {
        assert s[i] in s;
      }
    }
    StripNoWhiteSpace(s);
    EncodeGroups(b);
    DecodeGroupsEncode(b);
  }
}
