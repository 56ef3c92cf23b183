/** UTF-8 as section 3 of RFC 3629 defines it, and the bytes at which characters start. */
module Utf8 {

  newtype Byte = x: int | 0 <= x < 256

  function Encode1(c: char): (r: seq<Byte>)
    ensures 1 <= |r| <= 4
  {
    var n := c as int;
    if n < 0x80 then [n as Byte]
    else if n < 0x800 then [(0xC0 + n / 64) as Byte, (0x80 + n % 64) as Byte]
    else if n < 0x10000 then [(0xE0 + n / 4096) as Byte, (0x80 + n / 64 % 64) as Byte, (0x80 + n % 64) as Byte]
    else [(0xF0 + n / 262144) as Byte, (0x80 + n / 4096 % 64) as Byte, (0x80 + n / 64 % 64) as Byte, (0x80 + n % 64) as Byte]
  }

  function Encode(s: string): seq<Byte> {
    if s == [] then [] else Encode1(s[0]) + Encode(s[1..])
  }

  function ByteLength(s: string): nat {
    |Encode(s)|
  }

  /** A byte that continues a character. */
  predicate IsCont(b: Byte) {
    0x80 <= b < 0xC0
  }

  /** How many bytes the character that starts with `b` takes. */
  function Width(b: Byte): nat {
    if b < 0x80 then 1 else if b < 0xE0 then 2 else if b < 0xF0 then 3 else 4
  }

  /** The character a full sequence of bytes stands for. */
  function Value(b: seq<Byte>): int
    requires b != []
  {
    if |b| == 1 then b[0] as int
    else if |b| == 2 then (b[0] as int - 0xC0) * 64 + (b[1] as int - 0x80)
    else if |b| == 3 then (b[0] as int - 0xE0) * 4096 + (b[1] as int - 0x80) * 64 + (b[2] as int - 0x80)
    else if |b| == 4 then
      (b[0] as int - 0xF0) * 262144 + (b[1] as int - 0x80) * 4096 + (b[2] as int - 0x80) * 64 + (b[3] as int - 0x80)
    else 0
  }

  lemma ValueOfEncoded(c: char)
    ensures Value(Encode1(c)) == c as int
  {
    var n := c as int;
    assert n == n / 64 * 64 + n % 64;
    assert n / 64 == n / 64 / 64 * 64 + n / 64 % 64 && n / 64 / 64 == n / 4096;
    assert n / 4096 == n / 4096 / 64 * 64 + n / 4096 % 64 && n / 4096 / 64 == n / 262144;
  }

  predicate IsScalar(n: int) {
    0 <= n < 0xD800 || 0xE000 <= n < 0x110000
  }

  const REPLACEMENT := '\U{FFFD}'

  /**
   Decoding the front part of valid text: a character cut short at the end becomes a single
   replacement character. Other malformed bytes do not arise here.
   */
  function Decode(b: seq<Byte>): string
    decreases |b|
  {
    if b == [] then []
    else
      var w := Width(b[0]);
      if w > |b| || !IsScalar(Value(b[..w])) then [REPLACEMENT]
      else [Value(b[..w]) as char] + Decode(b[w..])
  }

  lemma EncodeOne(c: char)
    ensures Encode([c]) == Encode1(c)
  {
  }

  lemma {:induction false} EncodeAppend(s: string, t: string)
    ensures Encode(s + t) == Encode(s) + Encode(t)
    ensures ByteLength(s + t) == ByteLength(s) + ByteLength(t)
  {
    if s == [] {
      assert s + t == t;
    } else {
      assert (s + t)[1..] == s[1..] + t;
      EncodeAppend(s[1..], t);
    }
  }

  lemma Prefixes(s: string, k: nat)
    requires k <= |s|
    ensures Encode(s) == Encode(s[..k]) + Encode(s[k..])
    ensures ByteLength(s[..k]) <= ByteLength(s)
  {
    assert s == s[..k] + s[k..];
    EncodeAppend(s[..k], s[k..]);
  }

  lemma LongerPrefix(s: string, j: nat, k: nat)
    requires j <= k <= |s|
    ensures ByteLength(s[..j]) <= ByteLength(s[..k]) && (j < k ==> ByteLength(s[..j]) < ByteLength(s[..k]))
  {
    Prefixes(s[..k], j);
    assert s[..k][..j] == s[..j];
    if j < k {
      assert s[..k][j..] != [];
    }
  }

  lemma {:induction false} BoundaryOf(s: string, e: nat) returns (k: nat)
    requires e <= ByteLength(s)
    ensures k <= |s| && ByteLength(s[..k]) <= e
    ensures k < |s| ==> e < ByteLength(s[..k + 1])
    ensures k == |s| ==> e == ByteLength(s)
    ensures e < ByteLength(s) ==> (IsCont(Encode(s)[e]) <==> ByteLength(s[..k]) < e)
  {
    if s == [] {
      k := 0;
    } else {
      var c, t := s[0], s[1..];
      var w := |Encode1(c)|;
      if e < w {
        k := 0;
        assert s[..1] == [c];
        if e > 0 {
        }
      } else {
        var j := BoundaryOf(t, e - w);
        k := j + 1;
        ConsPrefix(s, j);
        if j < |t| {
          ConsPrefix(s, j + 1);
        }
      }
    }
  }

  lemma ConsPrefix(s: string, j: nat)
    requires s != [] && j < |s|
    ensures ByteLength(s[..j + 1]) == |Encode1(s[0])| + ByteLength(s[1..][..j])
  {
    assert s[..j + 1][1..] == s[1..][..j];
  }

  lemma DecodeOne(c: char, rest: seq<Byte>)
    ensures Decode(Encode1(c) + rest) == [c] + Decode(rest)
  {
    var b, w := Encode1(c) + rest, |Encode1(c)|;
    ValueOfEncoded(c);
    assert b[0] == Encode1(c)[0];
    assert b[..w] == Encode1(c) && b[w..] == rest;
  }

  lemma Assoc<T>(a: seq<T>, b: seq<T>, c: seq<T>)
    ensures (a + b) + c == a + (b + c)
  {
  }

  /** Decoding undoes encoding, also in front of more bytes. */
  lemma {:induction false} DecodeFront(s: string, rest: seq<Byte>)
    ensures Decode(Encode(s) + rest) == s + Decode(rest)
  {
    if s == [] {
      assert Encode(s) + rest == rest;
    } else {
      DecodeFront(s[1..], rest);
      DecodeOne(s[0], Encode(s[1..]) + rest);
      Assoc(Encode1(s[0]), Encode(s[1..]), rest);
      Assoc([s[0]], s[1..], Decode(rest));
      assert [s[0]] + s[1..] == s;
    }
  }

  lemma {:induction false} DecodeEncode(s: string)
    ensures Decode(Encode(s)) == s
  {
    DecodeFront(s, []);
    assert Encode(s) + [] == Encode(s);
  }

  lemma {:induction false} CutInParts(s: string, e: nat, k: nat)
    requires e <= ByteLength(s) && k <= |s| && ByteLength(s[..k]) <= e
    ensures ByteLength(s[..k]) <= ByteLength(s)
    ensures Encode(s)[..e] == Encode(s[..k]) + Encode(s)[ByteLength(s[..k])..e]
  {
    Prefixes(s, k);
  }

  /** Decoding the first `e` bytes gives the characters that fit, and a replacement for one cut short. */
  lemma {:induction false} DecodePrefix(s: string, e: nat, k: nat)
    requires e <= ByteLength(s) && k <= |s| && ByteLength(s[..k]) <= e
    requires k < |s| ==> e < ByteLength(s[..k + 1])
    requires k == |s| ==> e == ByteLength(s)
    ensures Decode(Encode(s)[..e]) == if ByteLength(s[..k]) == e then s[..k] else s[..k] + [REPLACEMENT]
  {
    var i := ByteLength(s[..k]);
    CutInParts(s, e, k);
    DecodeFront(s[..k], Encode(s)[i..e]);
    DecodeRest(s, e, k);
  }

  lemma {:induction false} DecodeRest(s: string, e: nat, k: nat)
    requires e <= ByteLength(s) && k <= |s| && ByteLength(s[..k]) <= e
    requires k < |s| ==> e < ByteLength(s[..k + 1])
    requires k == |s| ==> e == ByteLength(s)
    ensures Decode(Encode(s)[ByteLength(s[..k])..e]) == if ByteLength(s[..k]) == e then [] else [REPLACEMENT]
  {
    assert k == |s| ==> s[..k] == s;
    if ByteLength(s[..k]) < e {
      CutCharacter(s, e, k);
    }
  }

  lemma OneMoreCharacter(s: string, k: nat)
    requires k < |s|
    ensures Encode(s[..k + 1]) == Encode(s[..k]) + Encode1(s[k])
  {
    assert s[..k + 1] == s[..k] + [s[k]];
    EncodeAppend(s[..k], [s[k]]);
  }

  lemma CutCharacter(s: string, e: nat, k: nat)
    requires k < |s| && ByteLength(s[..k]) <= e < ByteLength(s[..k + 1])
    ensures ByteLength(s[..k + 1]) == ByteLength(s[..k]) + |Encode1(s[k])|
    ensures e <= ByteLength(s) && Encode(s)[ByteLength(s[..k])..e] == Encode1(s[k])[..e - ByteLength(s[..k])]
  {
    OneMoreCharacter(s, k);
    Prefixes(s, k + 1);
  }

  /** How many bytes a character takes, by the table of section 3 of RFC 3629, and what its bytes look like. */
  lemma EncodedForm(c: char)
    ensures |Encode1(c)| == if c < '\U{80}' then 1 else if c < '\U{800}' then 2 else if c < '\U{10000}' then 3 else 4
    ensures forall i :: 0 <= i < |Encode1(c)| ==> (IsCont(Encode1(c)[i]) <==> i > 0)
    ensures |Encode1(c)| == 1 ==> Encode1(c)[0] as int == c as int
  {
  }
}
