/** Text as a sequence of Unicode scalar values, in UTF-8 (section 3 of RFC 3629) and in UTF-16. */
module UnicodeText {
  import opened CsvGrammar
  import opened Utf8
  import CopyText

  predicate Scalar(c: int) {
    0 <= c < 0xD800 || 0xE000 <= c < 0x110000
  }

  predicate Scalars(cs: seq<int>) {
    forall k | 0 <= k < |cs| :: Scalar(cs[k])
  }

  /** Bit-distribution: the payload in groups of six bits behind a head that tells how many follow. */
  function Encoded(c: int): (s: seq<Byte>)
    requires Scalar(c)
    ensures 1 <= |s| <= 4
  {
    if c < 0x80 then [c as Byte]
    else if c < 0x800 then [(0xC0 + c / 64) as Byte, Tail(c)]
    else if c < 0x10000 then [(0xE0 + c / 4096) as Byte, Tail(c / 64), Tail(c)]
    else [(0xF0 + c / 262144) as Byte, Tail(c / 4096), Tail(c / 64), Tail(c)]
  }

  function Tail(c: int): Byte
    requires c >= 0
  {
    (0x80 + c % 64) as Byte
  }

  function EncodedText(cs: seq<int>): seq<Byte>
    requires Scalars(cs)
  {
    if cs == [] then [] else Encoded(cs[0]) + EncodedText(cs[1..])
  }

  lemma EncodedIsCharacter(c: int, rest: seq<Byte>)
    requires Scalar(c)
    ensures CharLength(Encoded(c) + rest) == |Encoded(c)|
    ensures !Continuation(Encoded(c)[0]) && forall k | 0 < k < |Encoded(c)| :: Continuation(Encoded(c)[k])
  {
    var s, t := Encoded(c), Encoded(c) + rest;
    assert forall k | 0 <= k < |s| :: t[k] == s[k];
    assert Tails(t, |s|);
    if 0x800 <= c < 0x10000 {
      assert c < 0x1000 ==> c / 64 % 64 == c / 64;
      assert c / 4096 == 0xD ==> c / 64 % 64 == c / 64 - 0xD * 64;
    } else if c >= 0x10000 {
      assert c / 262144 == 0 ==> c / 4096 % 64 == c / 4096;
      assert c / 262144 == 4 ==> c / 4096 % 64 == c / 4096 - 4 * 64;
    }
  }

  lemma TwoBytes(b: int, d: int)
    requires 0xC2 <= b <= 0xDF && 0x80 <= d < 0xC0
    ensures var c := (b - 0xC0) * 64 + (d - 0x80); Scalar(c) && Encoded(c) == [b as Byte, d as Byte]
  {
    assert ((b - 0xC0) * 64 + (d - 0x80)) / 64 == b - 0xC0;
  }

  lemma ThreeBytes(b: int, d: int, e: int)
    requires 0xE0 <= b <= 0xEF && 0x80 <= d < 0xC0 && 0x80 <= e < 0xC0
    requires (b == 0xE0 ==> d >= 0xA0) && (b == 0xED ==> d < 0xA0)
    ensures var c := (b - 0xE0) * 4096 + (d - 0x80) * 64 + (e - 0x80);
      Scalar(c) && Encoded(c) == [b as Byte, d as Byte, e as Byte]
  {
    var c := (b - 0xE0) * 4096 + (d - 0x80) * 64 + (e - 0x80);
    assert c / 4096 == b - 0xE0 && c / 64 == (b - 0xE0) * 64 + (d - 0x80);
  }

  lemma FourBytes(b: int, d: int, e: int, f: int)
    requires 0xF0 <= b <= 0xF4 && 0x80 <= d < 0xC0 && 0x80 <= e < 0xC0 && 0x80 <= f < 0xC0
    requires (b == 0xF0 ==> d >= 0x90) && (b == 0xF4 ==> d < 0x90)
    ensures var c := (b - 0xF0) * 262144 + (d - 0x80) * 4096 + (e - 0x80) * 64 + (f - 0x80);
      Scalar(c) && Encoded(c) == [b as Byte, d as Byte, e as Byte, f as Byte]
  {
    var c := (b - 0xF0) * 262144 + (d - 0x80) * 4096 + (e - 0x80) * 64 + (f - 0x80);
    assert c / 262144 == b - 0xF0 && c / 4096 == (b - 0xF0) * 64 + (d - 0x80);
    assert c / 64 == (b - 0xF0) * 4096 + (d - 0x80) * 64 + (e - 0x80);
  }

  lemma CharacterIsEncoded(s: seq<Byte>) returns (c: int)
    requires CharLength(s) > 0
    ensures Scalar(c) && Encoded(c) == s[..CharLength(s)]
  {
    hide Encoded, Scalar;
    var n := CharLength(s);
    var b := s[0] as int;
    if n == 1 {
      AsciiByte(b);
      c := b;
    } else if n == 2 {
      TwoBytes(b, s[1] as int);
      c := (b - 0xC0) * 64 + (s[1] as int - 0x80);
    } else if n == 3 {
      ThreeBytes(b, s[1] as int, s[2] as int);
      c := (b - 0xE0) * 4096 + (s[1] as int - 0x80) * 64 + (s[2] as int - 0x80);
    } else {
      FourBytes(b, s[1] as int, s[2] as int, s[3] as int);
      c := (b - 0xF0) * 262144 + (s[1] as int - 0x80) * 4096 + (s[2] as int - 0x80) * 64 + (s[3] as int - 0x80);
    }
  }

  lemma AsciiByte(b: int)
    requires 0 <= b < 0x80
    ensures Scalar(b) && Encoded(b) == [b as Byte]
  {
  }

  lemma {:induction false} EncodedIsValid(cs: seq<int>)
    requires Scalars(cs)
    ensures ValidUtf8(EncodedText(cs))
  {
    hide CharLength, Encoded;
    if cs != [] {
      var s := EncodedText(cs);
      EncodedIsCharacter(cs[0], EncodedText(cs[1..]));
      EncodedIsValid(cs[1..]);
      assert s[|Encoded(cs[0])|..] == EncodedText(cs[1..]);
    }
  }

  lemma {:induction false} ValidIsEncoded(s: seq<Byte>) returns (cs: seq<int>)
    requires ValidUtf8(s)
    ensures Scalars(cs) && EncodedText(cs) == s
  {
    hide CharLength, Encoded;
    if s == [] {
      cs := [];
    } else {
      var n := CharLength(s);
      var c := CharacterIsEncoded(s);
      var more := ValidIsEncoded(s[n..]);
      cs := [c] + more;
      assert cs[1..] == more;
    }
  }

  ghost predicate Encodes(s: seq<Byte>, cs: seq<int>) {
    Scalars(cs) && EncodedText(cs) == s
  }

  /** Valid text is exactly what encodes some sequence of scalar values. */
  lemma ValidIff(s: seq<Byte>)
    ensures ValidUtf8(s) <==> exists cs :: Encodes(s, cs)
  {
    hide ValidUtf8, EncodedText;
    if ValidUtf8(s) {
      var cs := ValidIsEncoded(s);
      assert Encodes(s, cs);
    }
    if exists cs :: Encodes(s, cs) {
      var cs :| Encodes(s, cs);
      EncodedIsValid(cs);
    }
  }

  lemma {:induction false} BehindHead(head: seq<Byte>, rest: seq<Byte>, max: nat)
    requires head != [] && |head| <= max && (rest != [] ==> !Continuation(rest[0]))
    ensures SafeLength(head + rest, max) == |head| + SafeLength(rest, max - |head|)
    decreases max
  {
    var s := head + rest;
    if |s| > max && Continuation(s[max]) {
      assert max > |head|;
      BehindHead(head, rest, max - 1);
    }
  }

  lemma {:induction false} WithinHead(s: seq<Byte>, max: nat)
    requires max < |s| && forall k | 0 < k <= max :: Continuation(s[k])
    ensures SafeLength(s, max) == 0
  {
    if max > 0 {
      WithinHead(s, max - 1);
    }
  }

  lemma TextBegins(cs: seq<int>)
    requires Scalars(cs) && cs != []
    ensures EncodedText(cs) != [] && !Continuation(EncodedText(cs)[0])
  {
    EncodedIsCharacter(cs[0], EncodedText(cs[1..]));
  }

  /** The cut keeps as many whole characters as fit. */
  lemma {:induction false} CutKeepsCharacters(cs: seq<int>, max: nat) returns (k: nat)
    requires Scalars(cs)
    ensures k <= |cs| && SafeLength(EncodedText(cs), max) == |EncodedText(cs[..k])| <= max
    ensures k < |cs| ==> |EncodedText(cs[..k + 1])| > max
  {
    hide Encoded;
    if cs == [] {
      k := 0;
    } else {
      var head, rest := Encoded(cs[0]), EncodedText(cs[1..]);
      EncodedIsCharacter(cs[0], rest);
      if |head| <= max {
        if |cs| > 1 {
          TextBegins(cs[1..]);
        }
        BehindHead(head, rest, max);
        k := CutKeepsCharacters(cs[1..], max - |head|);
        FirstOf(cs, k);
        if k < |cs| - 1 {
          FirstOf(cs, k + 1);
        }
        k := k + 1;
      } else {
        WithinHead(head + rest, max);
        k := 0;
        FirstOf(cs, 0);
      }
    }
  }

  lemma FirstOf(cs: seq<int>, k: nat)
    requires Scalars(cs) && k < |cs|
    ensures EncodedText(cs[..k + 1]) == Encoded(cs[0]) + EncodedText(cs[1..][..k])
    ensures EncodedText(cs[..0]) == []
  {
    assert cs[..k + 1][1..] == cs[1..][..k];
  }

  // ---- UTF-16 --------------------------------------------------------------------------------

  /** The scalar values of UTF-16 text; a surrogate without its partner reads as the replacement character. */
  function Decoded(t: CopyText.Text): (cs: seq<int>)
    ensures Scalars(cs)
  {
    if t == [] then []
    else if |t| >= 2 && 0xD800 <= t[0] < 0xDC00 && 0xDC00 <= t[1] < 0xE000 then
      [0x10000 + (t[0] as int - 0xD800) * 1024 + (t[1] as int - 0xDC00)] + Decoded(t[2..])
    else [if 0xD800 <= t[0] < 0xE000 then 0xFFFD else t[0] as int] + Decoded(t[1..])
  }

  /** The size the copy budget is about is that of the text in UTF-8. */
  lemma {:induction false} SizeIsEncoded(t: CopyText.Text)
    ensures CopyText.Utf8Size(t) == |EncodedText(Decoded(t))|
  {
    if t != [] {
      var cs := Decoded(t);
      if |t| >= 2 && 0xD800 <= t[0] < 0xDC00 && 0xDC00 <= t[1] < 0xE000 {
        SizeIsEncoded(t[2..]);
        assert cs[1..] == Decoded(t[2..]);
      } else {
        SizeIsEncoded(t[1..]);
        assert cs[1..] == Decoded(t[1..]);
      }
    }
  }
}
