/** Truncating text to a number of bytes without cutting a character. */
module Truncation {
  import opened Text

  type Byte = b: int | 0 <= b < 256

  predicate IsContinuation(b: Byte) {
    0x80 <= b < 0xC0
  }

  /** UTF-8, section 3 of RFC 3629. A `char` is a Unicode scalar value. */
  function Encode(c: char): (bytes: seq<Byte>)
    ensures 1 <= |bytes| <= 4
    ensures !IsContinuation(bytes[0])
    ensures forall i | 0 < i < |bytes| :: IsContinuation(bytes[i])
  {
    var n := c as int;
    if n < 0x80 then
      [n]
    else if n < 0x800 then
      [0xC0 + n / 0x40, 0x80 + n % 0x40]
    else if n < 0x1_0000 then
      [0xE0 + n / 0x1000, 0x80 + n / 0x40 % 0x40, 0x80 + n % 0x40]
    else
      [0xF0 + n / 0x4_0000, 0x80 + n / 0x1000 % 0x40, 0x80 + n / 0x40 % 0x40, 0x80 + n % 0x40]
  }

  function ConcatMap(f: char -> seq<Byte>, s: string): seq<Byte> {
    if s == "" then [] else f(s[0]) + ConcatMap(f, s[1..])
  }

  function EncodeAll(s: string): seq<Byte> {
    ConcatMap(Encode, s)
  }

  /** `str::is_char_boundary`, which looks at one byte only. */
  predicate IsCharBoundary(text: seq<Byte>, i: nat) {
    i == 0 || i == |text| || (i < |text| && !IsContinuation(text[i]))
  }

  /** Where character `k` starts. */
  function Offset(s: string, k: nat): nat
    requires k <= |s|
  {
    |EncodeAll(s[..k])|
  }

  lemma {:induction false} ConcatMapSplits(f: char -> seq<Byte>, a: string, b: string)
    ensures ConcatMap(f, a + b) == ConcatMap(f, a) + ConcatMap(f, b)
  {
    if a == "" {
      assert a + b == b;
    } else {
      ConcatMapSplits(f, a[1..], b);
      assert (a + b)[1..] == a[1..] + b;
      var head, tail, other := f(a[0]), ConcatMap(f, a[1..]), ConcatMap(f, b);
      assert head + (tail + other) == (head + tail) + other;
    }
  }

  lemma OffsetShift(s: string)
    requires s != ""
    ensures forall k | 0 < k <= |s| :: Offset(s, k) == |Encode(s[0])| + Offset(s[1..], k - 1)
  {
    forall k | 0 < k <= |s| ensures Offset(s, k) == |Encode(s[0])| + Offset(s[1..], k - 1) {
      assert s[..k][1..] == s[1..][..k - 1];
    }
  }

  lemma BoundaryShift(s: string, i: nat)
    requires s != "" && |Encode(s[0])| <= i <= |EncodeAll(s)|
    ensures IsCharBoundary(EncodeAll(s), i) <==> IsCharBoundary(EncodeAll(s[1..]), i - |Encode(s[0])|)
  {
    var w, rest := |Encode(s[0])|, EncodeAll(s[1..]);
    if i < |EncodeAll(s)| {
      assert EncodeAll(s)[i] == rest[i - w];
      assert i == w ==> !IsContinuation(rest[0]);
    }
  }

  /** The boundaries of the bytes are exactly the offsets of the characters. */
  lemma {:induction false} BoundariesAreOffsets(s: string, i: nat)
    requires i <= |EncodeAll(s)|
    ensures IsCharBoundary(EncodeAll(s), i) <==> exists k :: 0 <= k <= |s| && Offset(s, k) == i
  {
    assert Offset(s, 0) == 0;
    if s != "" && i > 0 {
      var w := |Encode(s[0])|;
      OffsetShift(s);
      if i < w {
        assert EncodeAll(s)[i] == Encode(s[0])[i];
      } else {
        BoundariesAreOffsets(s[1..], i - w);
        BoundaryShift(s, i);
        if k :| 0 <= k <= |s[1..]| && Offset(s[1..], k) == i - w {
          assert Offset(s, k + 1) == i;
        }
      }
    }
  }

  lemma PrefixBytes(s: string, k: nat)
    requires k <= |s|
    ensures Offset(s, k) <= |EncodeAll(s)| && EncodeAll(s)[..Offset(s, k)] == EncodeAll(s[..k])
  {
    ConcatMapSplits(Encode, s[..k], s[k..]);
    assert s == s[..k] + s[k..];
  }

  lemma OffsetsAscend(s: string, j: nat, k: nat)
    requires j <= k <= |s|
    ensures Offset(s, j) <= Offset(s, k)
  {
    PrefixBytes(s[..k], j);
    assert s[..k][..j] == s[..j];
  }

  /** How many leading characters fit into `max` bytes. */
  function Fitting(s: string, max: nat): (k: nat)
    ensures k <= |s|
  {
    if s == "" || |Encode(s[0])| > max then 0 else 1 + Fitting(s[1..], max - |Encode(s[0])|)
  }

  /** `Fitting` is the largest number of characters within `max` bytes, at most 3 bytes short. */
  lemma {:induction false} FittingIsLongest(s: string, max: nat)
    ensures Offset(s, Fitting(s, max)) <= max
    ensures forall k | Fitting(s, max) < k <= |s| :: max < Offset(s, k)
    ensures Fitting(s, max) < |s| ==> max - Offset(s, Fitting(s, max)) <= 3
  {
    if s == "" {
    } else {
      var w := |Encode(s[0])|;
      OffsetShift(s);
      if w <= max {
        FittingIsLongest(s[1..], max - w);
      }
    }
  }

  /** Stepping back from `max` no further than the fitting prefix, the first boundary is its end. */
  lemma BoundaryAtFitting(s: string, max: nat, end: nat)
    requires Offset(s, Fitting(s, max)) <= end <= max < |EncodeAll(s)|
    requires end == 0 || IsCharBoundary(EncodeAll(s), end)
    ensures end == Offset(s, Fitting(s, max))
  {
    FittingIsLongest(s, max);
    BoundariesAreOffsets(s, end);
    if j :| 0 <= j <= |s| && Offset(s, j) == end {
      if j < Fitting(s, max) {
        OffsetsAscend(s, j, Fitting(s, max));
      }
    }
  }

  // --- Decoding -----------------------------------------------------------

  /** `front` with six more bits at its end. */
  function Six(front: int, b: Byte): int {
    front * 0x40 + (b as int - 0x80)
  }

  /** The character a text starts with and its bytes, by the table in section 3 of RFC 3629:
      overlong forms and surrogates are malformed. */
  function DecodeFirst(text: seq<Byte>): Option<(char, nat)> {
    if text == [] then
      None
    else if text[0] < 0x80 then
      Some((text[0] as char, 1))
    else if 0xC2 <= text[0] <= 0xDF && |text| >= 2 && IsContinuation(text[1]) then
      Some((Six(text[0] as int - 0xC0, text[1]) as char, 2))
    else if 0xE0 <= text[0] <= 0xEF && |text| >= 3 && IsContinuation(text[1]) && IsContinuation(text[2]) then
      var v := Six(Six(text[0] as int - 0xE0, text[1]), text[2]);
      if 0x800 <= v < 0xD800 || 0xE000 <= v < 0x1_0000 then Some((v as char, 3)) else None
    else if 0xF0 <= text[0] <= 0xF4 && |text| >= 4
            && IsContinuation(text[1]) && IsContinuation(text[2]) && IsContinuation(text[3]) then
      var v := Six(Six(Six(text[0] as int - 0xF0, text[1]), text[2]), text[3]);
      if 0x1_0000 <= v < 0x11_0000 then Some((v as char, 4)) else None
    else
      None
  }

  function Decode(text: seq<Byte>): Option<string>
    decreases |text|
  {
    if text == [] then
      Some("")
    else
      match DecodeFirst(text)
      case None => None
      case Some((c, n)) =>
        if 0 < n <= |text| then
          match Decode(text[n..])
          case None => None
          case Some(rest) => Some([c] + rest)
        else
          None
  }

  lemma SixExactly(front: nat, b: Byte, v: nat)
    requires IsContinuation(b)
    ensures Six(front, b) == v <==> front == v / 0x40 && b == 0x80 + v % 0x40
  {
  }

  lemma EncodedIsDecoded(c: char, rest: seq<Byte>)
    ensures DecodeFirst(Encode(c) + rest) == Some((c, |Encode(c)|))
  {
    var n, text := c as int, Encode(c) + rest;
    if n < 0x80 {
    } else if n < 0x800 {
      SixExactly(n / 0x40, text[1], n);
    } else if n < 0x1_0000 {
      SixExactly(n / 0x1000, text[1], n / 0x40);
      SixExactly(n / 0x40, text[2], n);
    } else {
      SixExactly(n / 0x4_0000, text[1], n / 0x1000);
      SixExactly(n / 0x1000, text[2], n / 0x40);
      SixExactly(n / 0x40, text[3], n);
    }
  }

  lemma DecodedIsEncoded(text: seq<Byte>)
    requires DecodeFirst(text).Some?
    ensures var (c, n) := DecodeFirst(text).value;
            n <= |text| && text[..n] == Encode(c)
  {
    var (c, n) := DecodeFirst(text).value;
    if n == 2 {
      SixExactly(text[0] as int - 0xC0, text[1], c as int);
    } else if n == 3 {
      SixExactly(text[0] as int - 0xE0, text[1], c as int / 0x40);
      SixExactly(c as int / 0x40, text[2], c as int);
    } else if n == 4 {
      SixExactly(text[0] as int - 0xF0, text[1], c as int / 0x1000);
      SixExactly(c as int / 0x1000, text[2], c as int / 0x40);
      SixExactly(c as int / 0x40, text[3], c as int);
    }
  }

  /** A text is well-formed UTF-8 for `s` iff it is the encoding of `s`. */
  lemma {:induction false} DecodeExactly(text: seq<Byte>, s: string)
    ensures Decode(text) == Some(s) <==> text == EncodeAll(s)
    decreases |text|
  {
    if text == [] {
      assert s != "" ==> EncodeAll(s) != [];
    } else {
      if s != "" && text == EncodeAll(s) {
        EncodedIsDecoded(s[0], EncodeAll(s[1..]));
        assert text[|Encode(s[0])|..] == EncodeAll(s[1..]) && s == [s[0]] + s[1..];
        DecodeExactly(text[|Encode(s[0])|..], s[1..]);
      }
      if Decode(text) == Some(s) {
        var (c, n) := DecodeFirst(text).value;
        DecodedIsEncoded(text);
        assert s == [c] + Decode(text[n..]).value && s[1..] == Decode(text[n..]).value;
        DecodeExactly(text[n..], s[1..]);
        assert text == text[..n] + text[n..];
      }
    }
  }

  const ELLIPSIS := "\U{2026}\n(truncated)"

  /** `truncate_on_boundary`: text that is too long keeps the longest prefix of whole characters
      within `max` bytes, followed by the ellipsis. */
  method TruncateOnBoundary(text: seq<Byte>, max: nat, ghost s: string) returns (result: seq<Byte>)
    requires Decode(text) == Some(s)
    ensures |text| <= max ==> result == text
    ensures |text| > max ==> result == EncodeAll(s[..Fitting(s, max)] + ELLIPSIS)
    ensures |text| > max ==> Decode(result) == Some(s[..Fitting(s, max)] + "\U{2026}\n(truncated)")
  {
    DecodeExactly(text, s);
    if |text| <= max {
      return text;
    }
    var end := max;
    ghost var k := Fitting(s, max);
    FittingIsLongest(s, max);
    BoundariesAreOffsets(s, Offset(s, k));
    while end > 0 && !IsCharBoundary(text, end)
      invariant Offset(s, k) <= end <= max
    {
      end := end - 1;
    }
    BoundaryAtFitting(s, max, end);
    PrefixBytes(s, k);
    ConcatMapSplits(Encode, s[..k], ELLIPSIS);
    result := text[..end] + EncodeAll(ELLIPSIS);
    DecodeExactly(result, s[..k] + ELLIPSIS);
  }
}
