/** UTF-8 as section 3 of RFC 3629 lays it out, and Rust's byte-offset string slicing over it. */
module Utf8 {
  import opened Basics

  /** The octets that encode one scalar value. */
  function Encode(c: char): (b: seq<Byte>)
    ensures 1 <= |b| <= 4
    ensures !IsContinuation(b[0])
    ensures forall i :: 1 <= i < |b| ==> IsContinuation(b[i])
  {
    var n := c as int;
    if n < 0x80 then [n]
    else if n < 0x800 then [0xC0 + n / 64, 0x80 + n % 64]
    else if n < 0x1_0000 then [0xE0 + n / 4096, 0x80 + n / 64 % 64, 0x80 + n % 64]
    else [0xF0 + n / 262144, 0x80 + n / 4096 % 64, 0x80 + n / 64 % 64, 0x80 + n % 64]
  }

  /** The bits a continuation octet carries. */
  function Low(b: Byte): int {
    b as int - 0x80
  }

  /** The value `b` decodes to under the table of section 3 of RFC 3629. */
  function Decoded(b: seq<Byte>): int
    requires 1 <= |b| <= 4
  {
    if |b| == 1 then b[0] as int
    else if |b| == 2 then (b[0] as int - 0xC0) * 64 + Low(b[1])
    else if |b| == 3 then (b[0] as int - 0xE0) * 4096 + Low(b[1]) * 64 + Low(b[2])
    else (b[0] as int - 0xF0) * 262144 + Low(b[1]) * 4096 + Low(b[2]) * 64 + Low(b[3])
  }

  /** The octets decode to the character, in the shortest of the four forms. */
  lemma EncodeIsTable(c: char)
    ensures Decoded(Encode(c)) == c as int
    ensures var n := c as int;
            |Encode(c)| == if n < 0x80 then 1 else if n < 0x800 then 2 else if n < 0x1_0000 then 3 else 4
  {
    SixBits(c as int);
  }

  lemma SixBits(n: nat)
    ensures n == n / 64 * 64 + n % 64
    ensures n == n / 4096 * 4096 + n / 64 % 64 * 64 + n % 64
    ensures n == n / 262144 * 262144 + n / 4096 % 64 * 4096 + n / 64 % 64 * 64 + n % 64
  {
    var a, b := n / 64, n / 4096;
    assert b == a / 64 && n / 262144 == b / 64;
  }

  predicate IsContinuation(b: Byte) {
    0x80 <= b < 0xC0
  }

  function Bytes(s: string): seq<Byte> {
    if s == [] then [] else Encode(s[0]) + Bytes(s[1..])
  }

  /** Rust's `str::is_char_boundary`: judged on the octet at the offset. */
  predicate IsBoundary(b: seq<Byte>, i: nat) {
    i == 0 || i == |b| || (i < |b| && !IsContinuation(b[i]))
  }

  /** Rust's `str::get(..end)`: the characters whose encoding is exactly the first `end` octets. */
  function Get(s: string, end: nat): Option<string> {
    if end == 0 then Some([])
    else if s == [] || end < |Encode(s[0])| then None
    else match Get(s[1..], end - |Encode(s[0])|)
      case None => None
      case Some(rest) => Some([s[0]] + rest)
  }

  /** How many leading characters fit whole into `limit` octets. */
  function Fitting(s: string, limit: nat): (k: nat)
    ensures k <= |s|
  {
    if s == [] || limit < |Encode(s[0])| then 0 else 1 + Fitting(s[1..], limit - |Encode(s[0])|)
  }

  lemma {:induction false} BytesConcat(s: string, t: string)
    ensures Bytes(s + t) == Bytes(s) + Bytes(t)
  {
    if s == [] {
      assert s + t == t;
    } else {
      assert (s + t)[1..] == s[1..] + t;
      BytesConcat(s[1..], t);
    }
  }

  /** `Fitting` is the longest whole-character prefix: one more character would not fit. */
  lemma {:induction false} FittingIsLongest(s: string, limit: nat)
    ensures var k := Fitting(s, limit);
            && |Bytes(s[..k])| <= limit
            && (k < |s| ==> limit < |Bytes(s[..k + 1])| <= |Bytes(s[..k])| + 4)
  {
    if s == [] {
    } else if |Encode(s[0])| <= limit {
      var rest := limit - |Encode(s[0])|;
      FittingIsLongest(s[1..], rest);
      var k := Fitting(s[1..], rest);
      assert s[..k + 1][1..] == s[1..][..k];
      if k < |s| - 1 {
        assert s[..k + 2][1..] == s[1..][..k + 1];
      }
    } else {
      assert s[..1] == [s[0]];
      assert Bytes(s[..1]) == Encode(s[0]) + Bytes([]);
    }
  }

  /** Boundaries of an encoding in front of more octets that start a character. */
  lemma Boundaries(h: seq<Byte>, r: seq<Byte>)
    requires h != [] && forall i :: 1 <= i < |h| ==> IsContinuation(h[i])
    requires r != [] ==> !IsContinuation(r[0])
    ensures forall i :: 0 < i < |h| ==> !IsBoundary(h + r, i)
    ensures forall i :: |h| <= i ==> (IsBoundary(h + r, i) <==> IsBoundary(r, i - |h|))
  {
  }

  lemma StartsCharacter(s: string)
    ensures Bytes(s) != [] ==> !IsContinuation(Bytes(s)[0])
  {
  }

  /** Walking back from `limit` to a boundary ends exactly where the fitting characters end. */
  lemma {:induction false} BoundaryBelow(s: string, limit: nat, end: nat)
    requires end <= limit <= |Bytes(s)| && IsBoundary(Bytes(s), end)
    requires forall i :: end < i <= limit ==> !IsBoundary(Bytes(s), i)
    ensures end == |Bytes(s[..Fitting(s, limit)])|
    ensures Get(s, end) == Some(s[..Fitting(s, limit)])
  {
    hide Encode, IsBoundary;
    if s == [] {
    } else {
      var h, rest := Encode(s[0]), s[1..];
      StartsCharacter(rest);
      Boundaries(h, Bytes(rest));
      if |h| <= limit {
        assert IsBoundary(Bytes(rest), 0) by { ZeroIsBoundary(Bytes(rest)); }
        assert IsBoundary(Bytes(s), |h|);
        assert end != 0;
        forall i | end - |h| < i <= limit - |h| ensures !IsBoundary(Bytes(rest), i) {
          assert !IsBoundary(Bytes(s), i + |h|);
        }
        BoundaryBelow(rest, limit - |h|, end - |h|);
        PrefixBytes(s, Fitting(rest, limit - |h|));
      }
    }
  }

  lemma ZeroIsBoundary(b: seq<Byte>)
    ensures IsBoundary(b, 0)
  {
  }

  lemma PrefixBytes(s: string, k: nat)
    requires s != [] && k < |s|
    ensures s[..k + 1] == [s[0]] + s[1..][..k]
    ensures Bytes(s[..k + 1]) == Encode(s[0]) + Bytes(s[1..][..k])
  {
    assert s[..k + 1][1..] == s[1..][..k];
  }
}
