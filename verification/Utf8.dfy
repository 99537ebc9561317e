/** Valid UTF-8 (section 4 of RFC 3629) and the cut that never splits a character. */
module Utf8 {
  import opened CsvGrammar

  predicate Continuation(b: Byte) {
    0x80 <= b < 0xC0
  }

  predicate Tails(s: seq<Byte>, n: nat) {
    n <= |s| && forall k | 1 <= k < n :: Continuation(s[k])
  }

  /** Length of the character at the head of `s`, or 0 if there is none. */
  function CharLength(s: seq<Byte>): (n: nat)
    ensures n <= |s| && n <= 4
    ensures forall k | 1 <= k < n :: Continuation(s[k])
    ensures n > 0 ==> !Continuation(s[0])
    ensures n > 1 ==> s[0] >= 0x80
  {
    if s == [] then 0
    else if s[0] < 0x80 then 1
    else if 0xC2 <= s[0] <= 0xDF && Tails(s, 2) then 2
    else if 0xE0 <= s[0] <= 0xEF && Tails(s, 3)
         && (s[0] == 0xE0 ==> s[1] >= 0xA0) && (s[0] == 0xED ==> s[1] < 0xA0) then 3
    else if 0xF0 <= s[0] <= 0xF4 && Tails(s, 4)
         && (s[0] == 0xF0 ==> s[1] >= 0x90) && (s[0] == 0xF4 ==> s[1] < 0x90) then 4
    else 0
  }

  predicate ValidUtf8(s: seq<Byte>) {
    s == [] || (CharLength(s) > 0 && ValidUtf8(s[CharLength(s)..]))
  }

  /** A character is recognised by its own bytes. */
  lemma CharLengthLocal(s: seq<Byte>, t: seq<Byte>)
    requires CharLength(s) > 0 && CharLength(s) <= |t|
    requires forall k | 0 <= k < CharLength(s) :: t[k] == s[k]
    ensures CharLength(t) == CharLength(s)
  {
    var n := CharLength(s);
    assert t[0] == s[0];
    if n > 1 { assert t[1] == s[1]; }
    assert Tails(t, n);
  }

  lemma {:induction false} ValidUtf8Append(a: seq<Byte>, b: seq<Byte>)
    requires ValidUtf8(a) && ValidUtf8(b)
    ensures ValidUtf8(a + b)
    decreases |a|
  {
    hide CharLength;
    if a == [] {
      assert a + b == b;
    } else {
      var n := CharLength(a);
      CharLengthLocal(a, a + b);
      ValidUtf8Append(a[n..], b);
      assert (a + b)[n..] == a[n..] + b;
    }
  }

  /** Behind valid text the rest of valid text is valid. */
  lemma {:induction false} ValidUtf8Rest(a: seq<Byte>, b: seq<Byte>)
    requires ValidUtf8(a + b) && ValidUtf8(a)
    ensures ValidUtf8(b)
    decreases |a|
  {
    hide CharLength;
    if a == [] {
      assert a + b == b;
    } else {
      var n := CharLength(a);
      CharLengthLocal(a, a + b);
      assert (a + b)[n..] == a[n..] + b;
      ValidUtf8Rest(a[n..], b);
    }
  }

  /** Character boundaries can be seen in the text: a cut is one if it stands at an end, before
      a byte that is no continuation byte, or after an ASCII byte. */
  predicate CleanCut(s: seq<Byte>, i: nat) {
    i <= |s| && (i == 0 || i == |s| || !Continuation(s[i]) || s[i - 1] < 0x80)
  }

  lemma CleanCutBehindHead(s: seq<Byte>, i: nat)
    requires CharLength(s) > 0 && 0 < i && CleanCut(s, i)
    ensures i >= CharLength(s) && CleanCut(s[CharLength(s)..], i - CharLength(s))
  {
    var n := CharLength(s);
    var rest := s[n..];
    if i > n { assert rest[i - n - 1] == s[i - 1]; }
    if i < |s| { assert rest[i - n] == s[i]; }
  }

  lemma HeadAndCut(s: seq<Byte>, i: nat)
    requires CharLength(s) > 0 && CharLength(s) <= i <= |s|
    requires ValidUtf8(s[CharLength(s)..][..i - CharLength(s)])
    ensures ValidUtf8(s[..i])
  {
    var n := CharLength(s);
    CharLengthLocal(s, s[..i]);
    assert s[..i][n..] == s[n..][..i - n];
  }

  lemma {:induction false} ValidUtf8Cut(s: seq<Byte>, i: nat)
    requires ValidUtf8(s) && CleanCut(s, i)
    ensures ValidUtf8(s[..i]) && ValidUtf8(s[i..])
    decreases |s|
  {
    if i == 0 {
      assert s[..0] == [] && s[0..] == s;
    } else {
      var n := CharLength(s);
      CleanCutBehindHead(s, i);
      ValidUtf8Cut(s[n..], i - n);
      assert s[n..][i - n..] == s[i..];
      HeadAndCut(s, i);
    }
  }

  /** Text between two special bytes, or the ends, of valid UTF-8 is valid UTF-8. */
  lemma ValidUtf8Between(s: seq<Byte>, i: nat, j: nat)
    requires ValidUtf8(s) && i <= j <= |s|
    requires i == 0 || s[i - 1] < 0x80
    requires j == |s| || s[j] < 0x80
    ensures ValidUtf8(s[i..j])
  {
    ValidUtf8Cut(s, j);
    if 0 < i < j { assert s[..j][i - 1] == s[i - 1]; }
    ValidUtf8Cut(s[..j], i);
    assert s[..j][i..] == s[i..j];
  }

  /** The longest cut of at most `max` bytes that does not stand before a continuation byte. */
  function SafeLength(s: seq<Byte>, max: nat): (n: nat)
    ensures n <= |s| && n <= max
    ensures |s| <= max ==> n == |s|
    ensures n == |s| || n == 0 || !Continuation(s[n])
    ensures forall k | n < k <= max && k < |s| :: Continuation(s[k])
  {
    if |s| <= max then |s|
    else if max > 0 && Continuation(s[max]) then SafeLength(s, max - 1)
    else max
  }

  /** What follows behind the limit plays no part in it. */
  lemma {:induction false} SafeLengthLocal(s: seq<Byte>, t: seq<Byte>, max: nat)
    requires max < |s|
    ensures SafeLength(s + t, max) == SafeLength(s, max)
    decreases max
  {
    if max > 0 && Continuation(s[max]) {
      SafeLengthLocal(s, t, max - 1);
    }
  }

  /** The cut of a text that may be too long. */
  method Utf8SafeLength(s: seq<Byte>, maxBytes: nat) returns (len: nat)
    ensures len == SafeLength(s, maxBytes)
  {
    if |s| <= maxBytes {
      return |s|;
    }
    len := maxBytes;
    while len > 0 && Continuation(s[len])
      invariant len <= maxBytes && SafeLength(s, maxBytes) == SafeLength(s, len)
    {
      len := len - 1;
    }
  }

  /** In valid UTF-8 no four continuation bytes stand in a row. */
  lemma {:induction false} NoLongTail(s: seq<Byte>, i: nat)
    requires ValidUtf8(s) && i + 3 < |s|
    requires forall k | i <= k <= i + 3 :: Continuation(s[k])
    ensures false
    decreases |s|
  {
    var n := CharLength(s);
    if i < n {
      // the head covers byte i, so the next character starts among the four bytes
      assert false;
    } else {
      var rest := s[n..];
      forall k | i - n <= k <= i - n + 3 ensures Continuation(rest[k]) {
        assert rest[k] == s[k + n];
      }
      NoLongTail(rest, i - n);
    }
  }

  /** Cutting valid UTF-8 keeps valid text and gives up at most three bytes. */
  lemma SafeCut(s: seq<Byte>, max: nat)
    requires ValidUtf8(s)
    ensures ValidUtf8(s[..SafeLength(s, max)])
    ensures |s| > max ==> max - SafeLength(s, max) <= 3
  {
    var n := SafeLength(s, max);
    ValidUtf8Cut(s, n);
    if |s| > max && max - n > 3 {
      forall k | n + 1 <= k <= n + 4 ensures Continuation(s[k]) { }
      NoLongTail(s, n + 1);
    }
  }
}
