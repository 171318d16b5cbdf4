/**
 Optional values, strings and decimal numbers, as the Rust standard library treats them.

 Strings are sequences of Unicode scalar values. Rust orders `str` by its UTF-8 bytes,
 which is the order of the scalar values, so `Below` compares characters.
 */
module Text {

  datatype Option<+T> = None | Some(value: T) {
    function GetOr(default: T): T {
      match this
      case Some(v) => v
      case None => default
    }
  }

  datatype Result<+T, +E> = Ok(value: T) | Err(error: E)

  /** `HashMap::get`. */
  function Get<K, V>(m: map<K, V>, k: K): Option<V> {
    if k in m then Some(m[k]) else None
  }

  /** `str::starts_with`, character by character. */
  predicate StartsWith(s: string, prefix: string)
    ensures StartsWith(s, prefix) ==> |prefix| <= |s|
  {
    prefix == "" || (s != "" && s[0] == prefix[0] && StartsWith(s[1..], prefix[1..]))
  }

  lemma {:induction false} StartsWithExactly(s: string, prefix: string)
    ensures StartsWith(s, prefix) <==> prefix <= s
  {
    if prefix == "" || s == "" {
    } else {
      StartsWithExactly(s[1..], prefix[1..]);
      assert s == [s[0]] + s[1..] && prefix == [prefix[0]] + prefix[1..];
    }
  }

  function StripPrefix(s: string, prefix: string): (rest: Option<string>)
    ensures rest.Some? <==> prefix <= s
  {
    StartsWithExactly(s, prefix);
    if StartsWith(s, prefix) then Some(s[|prefix|..]) else None
  }

  predicate OccursAt(s: string, part: string, i: int) {
    0 <= i <= |s| && StartsWith(s[i..], part)
  }

  /** `part` occurs in `s`, starting at some position. */
  predicate Contains(s: string, part: string) {
    exists i | 0 <= i <= |s| :: OccursAt(s, part, i)
  }

  // --- Trimming -----------------------------------------------------------

  /** The Unicode `White_Space` property, which `str::trim` strips. */
  predicate IsWhitespace(c: char) {
    var n := c as int;
    || 0x09 <= n <= 0x0D
    || n in {0x20, 0x85, 0xA0, 0x1680, 0x2028, 0x2029, 0x202F, 0x205F, 0x3000}
    || 0x2000 <= n <= 0x200A
  }

  function TrimStart(s: string): string {
    if s != "" && IsWhitespace(s[0]) then TrimStart(s[1..]) else s
  }

  function TrimEnd(s: string): string {
    if s != "" && IsWhitespace(s[|s| - 1]) then TrimEnd(s[..|s| - 1]) else s
  }

  function Trim(s: string): string {
    TrimEnd(TrimStart(s))
  }

  /** The 25 characters Unicode 15 lists as white space. */
  lemma WhitespaceExactly(c: char)
    ensures IsWhitespace(c) <==>
            c as int in {9, 10, 11, 12, 13, 32, 133, 160, 5760, 8192, 8193, 8194, 8195, 8196, 8197, 8198, 8199,
                         8200, 8201, 8202, 8232, 8233, 8239, 8287, 12288}
  {
  }

  ghost predicate Surrounds(s: string, i: nat, j: nat)
    requires i <= j <= |s|
  {
    && (forall k | 0 <= k < i || j <= k < |s| :: IsWhitespace(s[k]))
    && (i < j ==> !IsWhitespace(s[i]) && !IsWhitespace(s[j - 1]))
  }

  /** `t` is `s` without the white space at its ends: what is cut off is white space, and `t`
      neither starts nor ends with any. */
  ghost predicate IsTrimmed(s: string, t: string) {
    exists i, j | 0 <= i <= j <= |s| :: s[i..j] == t && Surrounds(s, i, j)
  }

  lemma {:induction false} TrimStartExactly(s: string) returns (i: nat)
    ensures i <= |s| && TrimStart(s) == s[i..]
    ensures (forall k | 0 <= k < i :: IsWhitespace(s[k])) && (i < |s| ==> !IsWhitespace(s[i]))
  {
    if s == "" || !IsWhitespace(s[0]) {
      i := 0;
    } else {
      i := TrimStartExactly(s[1..]);
      assert s[1..][i..] == s[i + 1..];
      assert forall k | 0 < k <= i :: s[k] == s[1..][k - 1];
      i := i + 1;
    }
  }

  lemma {:induction false} TrimEndExactly(s: string) returns (j: nat)
    ensures j <= |s| && TrimEnd(s) == s[..j]
    ensures (forall k | j <= k < |s| :: IsWhitespace(s[k])) && (0 < j ==> !IsWhitespace(s[j - 1]))
  {
    if s == "" || !IsWhitespace(s[|s| - 1]) {
      j := |s|;
    } else {
      j := TrimEndExactly(s[..|s| - 1]);
      assert s[..|s| - 1][..j] == s[..j];
    }
  }

  lemma TrimExactly(s: string)
    ensures IsTrimmed(s, Trim(s))
  {
    var i := TrimStartExactly(s);
    var j := TrimEndExactly(s[i..]);
    assert s[i..][..j] == s[i..i + j];
    assert forall k | j <= k < |s[i..]| :: s[i..][k] == s[i + k];
    assert forall k | i + j <= k < |s| :: s[k] == s[i..][k - i];
    assert 0 < j ==> s[i..][j - 1] == s[i + j - 1];
    assert Surrounds(s, i, i + j);
  }

  /** Nothing is left exactly of strings of white space. */
  lemma BlankExactly(s: string)
    ensures Trim(s) == "" <==> forall k | 0 <= k < |s| :: IsWhitespace(s[k])
  {
    TrimExactly(s);
    var i, j :| 0 <= i <= j <= |s| && s[i..j] == Trim(s) && Surrounds(s, i, j);
    assert i < j ==> s[i] == Trim(s)[0];
  }

  // --- Decimal numbers ----------------------------------------------------

  predicate IsDigit(c: char) {
    '0' <= c <= '9'
  }

  predicate AllDigits(s: string) {
    forall i | 0 <= i < |s| :: IsDigit(s[i])
  }

  function Digit(d: nat): char
    requires d < 10
  {
    ('0' as int + d) as char
  }

  /** How a natural number is printed. */
  function Decimal(n: nat): (s: string)
    ensures s != "" && AllDigits(s)
    ensures s[0] == '0' <==> n == 0
  {
    if n < 10 then [Digit(n)] else Decimal(n / 10) + [Digit(n % 10)]
  }

  /** How an integer is printed. */
  function DecimalInt(i: int): string {
    if i < 0 then "-" + Decimal(-i) else Decimal(i)
  }

  /** What a string of digits denotes, without a bound. */
  function Value(s: string): nat
    requires AllDigits(s)
  {
    if s == "" then 0 else Value(s[..|s| - 1]) * 10 + (s[|s| - 1] as int - '0' as int)
  }

  lemma {:induction false} ValueOfDecimal(n: nat)
    ensures Value(Decimal(n)) == n
  {
    if n >= 10 {
      ValueOfDecimal(n / 10);
      assert Decimal(n)[..|Decimal(n)| - 1] == Decimal(n / 10);
    } else {
      assert Decimal(n)[..0] == "";
    }
  }

  lemma {:induction false} PositiveValue(s: string)
    requires s != "" && AllDigits(s) && s[0] != '0'
    ensures Value(s) > 0
  {
    if |s| <= 1 {
    } else {
      PositiveValue(s[..|s| - 1]);
    }
  }

  lemma {:induction false} DecimalOfValue(s: string)
    requires s != "" && AllDigits(s)
    requires s[0] == '0' ==> s == "0"
    ensures Decimal(Value(s)) == s
  {
    var rest := s[..|s| - 1];
    if rest == "" {
      assert s == [s[0]];
    } else {
      DecimalOfValue(rest);
      PositiveValue(rest);
      assert s == rest + [s[|s| - 1]];
    }
  }

  /** What a printed integer denotes. */
  function IntValue(s: string): int
    requires AllDigits(s) || (s != "" && s[0] == '-' && AllDigits(s[1..]))
  {
    if s != "" && s[0] == '-' then -(Value(s[1..]) as int) else Value(s) as int
  }

  lemma IntValueOfDecimalInt(i: int)
    ensures AllDigits(DecimalInt(i)) || (DecimalInt(i)[0] == '-' && AllDigits(DecimalInt(i)[1..]))
    ensures IntValue(DecimalInt(i)) == i
  {
    if i < 0 {
      ValueOfDecimal(-i);
      assert DecimalInt(i)[1..] == Decimal(-i);
    } else {
      ValueOfDecimal(i);
      assert IsDigit(Decimal(i)[0]);
    }
  }

  /** Different integers are printed differently. */
  lemma DecimalIntInjective(a: int, b: int)
    requires DecimalInt(a) == DecimalInt(b)
    ensures a == b
  {
    IntValueOfDecimalInt(a);
    IntValueOfDecimalInt(b);
  }

  // --- Order and sorting --------------------------------------------------

  /** Strict lexicographic order. */
  predicate Below(a: string, b: string) {
    b != "" && (a == "" || a[0] < b[0] || (a[0] == b[0] && Below(a[1..], b[1..])))
  }

  lemma {:induction false} BelowIsTotal(a: string, b: string)
    ensures a == b || Below(a, b) || Below(b, a)
  {
    if a != "" && b != "" && a[0] == b[0] {
      BelowIsTotal(a[1..], b[1..]);
      assert a == [a[0]] + a[1..] && b == [b[0]] + b[1..];
    }
  }

  lemma {:induction false} BelowIsTransitive(a: string, b: string, c: string)
    requires Below(a, b) && Below(b, c)
    ensures Below(a, c)
  {
    if a != "" && a[0] == b[0] && b[0] == c[0] {
      BelowIsTransitive(a[1..], b[1..], c[1..]);
    }
  }

  lemma {:induction false} BelowIsIrreflexive(a: string)
    ensures !Below(a, a)
  {
    if a == "" {
    } else {
      BelowIsIrreflexive(a[1..]);
    }
  }

  ghost predicate DiffersAt(a: string, b: string, k: nat)
    requires k <= |a| && k < |b|
  {
    a[..k] == b[..k] && (k == |a| || a[k] != b[k])
  }

  /** Where two strings first differ the lower one has ended or has the lower character. */
  ghost predicate ComesFirst(a: string, b: string) {
    exists k | 0 <= k <= |a| && k < |b| :: DiffersAt(a, b, k) && (k == |a| || a[k] < b[k])
  }

  lemma {:induction false} BelowExactly(a: string, b: string)
    ensures Below(a, b) <==> ComesFirst(a, b)
  {
    if a == "" || b == "" {
      assert b != "" ==> DiffersAt(a, b, 0);
    } else if a[0] != b[0] {
      assert DiffersAt(a, b, 0);
      forall k | 0 < k <= |a| && k < |b| ensures !DiffersAt(a, b, k) {
        assert a[..k][0] != b[..k][0];
      }
    } else {
      BelowExactly(a[1..], b[1..]);
      forall k | 0 <= k < |a| && k + 1 < |b|
        ensures DiffersAt(a[1..], b[1..], k) <==> DiffersAt(a, b, k + 1)
      {
        assert a[..k + 1] == [a[0]] + a[1..][..k] && b[..k + 1] == [b[0]] + b[1..][..k];
      }
      if k :| 0 <= k <= |a[1..]| && k < |b[1..]| && DiffersAt(a[1..], b[1..], k) && (k == |a[1..]| || a[1..][k] < b[1..][k]) {
        assert DiffersAt(a, b, k + 1);
      }
      if k :| 0 <= k <= |a| && k < |b| && DiffersAt(a, b, k) && (k == |a| || a[k] < b[k]) {
        assert k > 0;
        assert DiffersAt(a[1..], b[1..], k - 1);
      }
    }
  }

  /** A list in the order of `Vec::sort`, without repetitions. */
  ghost predicate IsSorted(s: seq<string>) {
    forall i, j | 0 <= i < j < |s| :: ComesFirst(s[i], s[j])
  }

  predicate StrictlyAscending(s: seq<string>) {
    forall i, j | 0 <= i < j < |s| :: Below(s[i], s[j])
  }

  lemma AscendingIsSorted(s: seq<string>)
    requires StrictlyAscending(s)
    ensures IsSorted(s)
  {
    forall i, j | 0 <= i < j < |s| ensures ComesFirst(s[i], s[j]) {
      BelowExactly(s[i], s[j]);
    }
  }

  function Elements<T>(s: seq<T>): set<T> {
    set x | x in s
  }

  predicate IsLeast(least: string, keys: set<string>) {
    least in keys && forall k | k in keys :: k == least || Below(least, k)
  }

  lemma {:induction false} LeastExists(keys: set<string>)
    requires keys != {}
    ensures exists least :: IsLeast(least, keys)
  {
    var k :| k in keys;
    if keys == {k} {
      assert IsLeast(k, keys);
    } else {
      var others := keys - {k};
      assert others != {};
      LeastExists(others);
      var m :| IsLeast(m, others);
      BelowIsTotal(k, m);
      if Below(k, m) {
        forall x | x in keys && x != k ensures Below(k, x) {
          if x != m {
            BelowIsTransitive(k, m, x);
          }
        }
        assert IsLeast(k, keys);
      } else {
        assert IsLeast(m, keys);
      }
    }
  }

  lemma LeastIsUnique(keys: set<string>, a: string, b: string)
    requires IsLeast(a, keys) && IsLeast(b, keys)
    ensures a == b
  {
    if a != b {
      BelowIsTransitive(a, b, a);
      BelowIsIrreflexive(a);
    }
  }

  function Least(keys: set<string>): (least: string)
    requires keys != {}
    ensures IsLeast(least, keys)
  {
    LeastExists(keys);
    assert forall a, b | IsLeast(a, keys) && IsLeast(b, keys) :: a == b by {
      forall a, b | IsLeast(a, keys) && IsLeast(b, keys) ensures a == b {
        LeastIsUnique(keys, a, b);
      }
    }
    var least :| IsLeast(least, keys);
    least
  }

  /** The ascending listing of a set of strings. */
  function Sorted(keys: set<string>): (s: seq<string>)
    ensures StrictlyAscending(s) && Elements(s) == keys
  {
    if keys == {} then
      []
    else
      var least := Least(keys);
      var rest := Sorted(keys - {least});
      assert forall i | 0 <= i < |rest| :: rest[i] in Elements(rest) && Below(least, rest[i]);
      assert Elements([least] + rest) == {least} + Elements(rest);
      [least] + rest
  }

  predicate Distinct<T(==)>(s: seq<T>) {
    forall i, j | 0 <= i < j < |s| :: s[i] != s[j]
  }

  /** `Vec::sort` on distinct strings. */
  function SortDistinct(s: seq<string>): (r: seq<string>)
    requires Distinct(s)
    ensures StrictlyAscending(r) && Elements(r) == Elements(s)
  {
    Sorted(Elements(s))
  }

  lemma HeadIsLeast(s: seq<string>)
    requires StrictlyAscending(s) && s != []
    ensures IsLeast(s[0], Elements(s))
  {
    forall k | k in Elements(s) ensures k == s[0] || Below(s[0], k) {
      var i :| 0 <= i < |s| && s[i] == k;
      if i > 0 { assert Below(s[0], s[i]); }
    }
  }

  lemma TailElements(s: seq<string>)
    requires StrictlyAscending(s) && s != []
    ensures Elements(s[1..]) == Elements(s) - {s[0]}
  {
    forall i | 0 < i < |s| ensures s[i] != s[0] {
      assert Below(s[0], s[i]);
      BelowIsIrreflexive(s[0]);
    }
    assert s == [s[0]] + s[1..];
  }

  /** A set has only one ascending listing. */
  lemma {:induction false} AscendingIsUnique(s: seq<string>, t: seq<string>)
    requires StrictlyAscending(s) && StrictlyAscending(t) && Elements(s) == Elements(t)
    ensures s == t
  {
    assert s != [] ==> s[0] in Elements(s);
    assert t != [] ==> t[0] in Elements(t);
    if s == [] || t == [] {
    } else {
      HeadIsLeast(s);
      HeadIsLeast(t);
      LeastIsUnique(Elements(s), s[0], t[0]);
      TailElements(s);
      TailElements(t);
      AscendingIsUnique(s[1..], t[1..]);
      assert s == [s[0]] + s[1..] && t == [t[0]] + t[1..];
    }
  }

  // --- First match --------------------------------------------------------

  /** The index of the first element of `s` that `p` accepts. */
  function First<T>(s: seq<T>, p: T -> bool): (r: Option<nat>)
    ensures r.Some? ==> r.value < |s| && p(s[r.value]) && forall j | 0 <= j < r.value :: !p(s[j])
    ensures r.None? ==> forall j | 0 <= j < |s| :: !p(s[j])
  {
    if s == [] then
      None
    else
      var n := |s| - 1;
      match First(s[..n], p)
      case Some(i) => Some(i)
      case None => if p(s[n]) then Some(n) else None
  }

  /** Scanning one more element changes the answer only when nothing matched before. */
  lemma FirstOfPrefix<T>(s: seq<T>, n: nat, p: T -> bool)
    requires n < |s|
    ensures First(s[..n + 1], p) ==
            if First(s[..n], p).Some? then First(s[..n], p) else if p(s[n]) then Some(n) else None
  {
    assert s[..n + 1][..n] == s[..n];
  }
}
