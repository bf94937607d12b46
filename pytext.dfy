/** The Python string operations the recogniser applies to operand text:
    the slices `s[1:]` and `s[1:-1]`, `str.split(", ")`, and `int(s, 16)`
    restricted to an optional `0x`/`0X` prefix followed by hex digits. */
module PyText {
  import opened Results

  /** `s[1:]`. */
  function DropFirst(s: string): string
  {
    if |s| == 0 then [] else s[1..]
  }

  /** `s[1:-1]`: empty for strings of length two or less. */
  function Inner(s: string): string
  {
    if |s| <= 2 then [] else s[1..|s| - 1]
  }

  // ------------------------------------------------------ split(', ')

  /** The separator the recogniser splits the offset operand on. */
  const Sep: string := ", "

  /** `", "` occurs in `s` starting at index `i`. */
  predicate OccursAt(s: string, i: int)
  {
    0 <= i && i + 1 < |s| && s[i] == ',' && s[i + 1] == ' '
  }

  /** `", "` does not occur anywhere in `s`. */
  predicate Free(s: string)
  {
    forall i | 0 <= i < |s| :: !OccursAt(s, i)
  }

  /** The index of the first occurrence of `", "` in `s`, as `str.find`. */
  function Find(s: string): (r: Option<nat>)
    ensures r.None? <==> Free(s)
    ensures r.Some? ==> OccursAt(s, r.value) && forall j | 0 <= j < r.value :: !OccursAt(s, j)
    decreases |s|
  {
    if |s| < 2 then None
    else if s[0] == ',' && s[1] == ' ' then assert OccursAt(s, 0); Some(0)
    else
      assert forall j | 1 <= j < |s| :: OccursAt(s, j) == OccursAt(s[1..], j - 1);
      match Find(s[1..])
      case None => None
      case Some(k) => assert OccursAt(s, k + 1); Some(k + 1)
  }

  /** `s.split(", ")`: the pieces between successive non-overlapping
      occurrences of the separator, scanning from the left. */
  function Split(s: string): seq<string>
    decreases |s|
  {
    match Find(s)
    case None => [s]
    case Some(i) => [s[..i]] + Split(s[i + 2..])
  }

  /** `", ".join(parts)`. */
  function Join(parts: seq<string>): string
  {
    if |parts| == 0 then []
    else if |parts| == 1 then parts[0]
    else parts[0] + Sep + Join(parts[1..])
  }

  /** The text before the first occurrence holds no occurrence. */
  lemma FreeBeforeFirst(s: string, i: nat)
    requires Find(s) == Some(i)
    ensures Free(s[..i])
  {
    forall j | 0 <= j < i ensures !OccursAt(s[..i], j) {
      assert !OccursAt(s, j);
    }
  }

  /** An occurrence at `i` cuts `s` into the text before it, the separator
      and the text after it. */
  lemma CutAtOccurrence(s: string, i: nat)
    requires OccursAt(s, i)
    ensures s == s[..i] + Sep + s[i + 2..]
  {
    assert s[i..i + 2] == Sep;
    assert s == s[..i] + s[i..i + 2] + s[i + 2..];
  }

  /** `split` loses nothing: joining the pieces with the separator gives back
      `s`, and there is always at least one piece. */
  lemma {:induction false} SplitJoin(s: string)
    ensures |Split(s)| >= 1
    ensures Join(Split(s)) == s
    decreases |s|
  {
    match Find(s)
    case None =>
    case Some(i) =>
      var head, rest := s[..i], s[i + 2..];
      SplitJoin(rest);
      var parts := Split(rest);
      var whole := [head] + parts;
      assert Split(s) == whole;
      assert whole[0] == head && whole[1..] == parts;
      assert Join(whole) == head + Sep + Join(parts);
      CutAtOccurrence(s, i);
  }

  /** No piece of `split` contains the separator. */
  lemma {:induction false} SplitPiecesFree(s: string)
    ensures forall k | 0 <= k < |Split(s)| :: Free(Split(s)[k])
    decreases |s|
  {
    match Find(s)
    case None =>
    case Some(i) =>
      var rest := s[i + 2..];
      SplitPiecesFree(rest);
      FreeBeforeFirst(s, i);
      var parts := Split(rest);
      assert Split(s) == [s[..i]] + parts;
      forall k | 0 <= k < |Split(s)| ensures Free(Split(s)[k]) {
        if k > 0 { assert Split(s)[k] == parts[k - 1]; }
      }
  }

  /** The separator occurs in `s` exactly when `split` gives a second piece,
      so indexing `[1]` raises `IndexError` exactly on text without it. */
  lemma SplitHasSecond(s: string)
    ensures |Split(s)| >= 2 <==> !Free(s)
  {
    match Find(s)
    case None =>
    case Some(i) =>
      SplitJoin(s[i + 2..]);
  }

  /** Splitting `a + ", " + b` where neither `a` nor `b` holds a comma gives
      exactly `[a, b]`. */
  lemma SplitAround(a: string, b: string)
    requires forall k | 0 <= k < |a| :: a[k] != ','
    requires forall k | 0 <= k < |b| :: b[k] != ','
    ensures Split(a + Sep + b) == [a, b]
  {
    var s := a + Sep + b;
    assert OccursAt(s, |a|);
    forall j | 0 <= j < |a| ensures !OccursAt(s, j) {
      assert s[j] == a[j];
    }
    assert Find(s) == Some(|a|);
    assert s[..|a|] == a;
    assert s[|a| + 2..] == b;
    assert Free(b);
  }

  // ------------------------------------------------------------ int(s, 16)

  predicate IsHexDigit(c: char)
  {
    '0' <= c <= '9' || 'a' <= c <= 'f' || 'A' <= c <= 'F'
  }

  predicate AllHexDigits(s: string)
  {
    forall i :: 0 <= i < |s| ==> IsHexDigit(s[i])
  }

  function DigitValue(c: char): (v: nat)
    requires IsHexDigit(c)
    ensures v < 16
  {
    if '0' <= c <= '9' then c as int - '0' as int
    else if 'a' <= c <= 'f' then c as int - 'a' as int + 10
    else c as int - 'A' as int + 10
  }

  /** The number written by a string of hex digits, most significant first. */
  function DigitsValue(s: string): nat
    requires AllHexDigits(s)
    decreases |s|
  {
    if s == [] then 0 else DigitsValue(s[..|s| - 1]) * 16 + DigitValue(s[|s| - 1])
  }

  /** The `0x`/`0X` prefix `int(s, 16)` accepts. */
  predicate HasHexPrefix(s: string)
  {
    |s| >= 2 && s[0] == '0' && (s[1] == 'x' || s[1] == 'X')
  }

  /** The strings this model's `int(s, 16)` accepts: one or more hex digits,
      optionally after a `0x`/`0X` prefix. */
  predicate IsHexLiteral(s: string)
  {
    (|s| >= 1 && AllHexDigits(s)) || (HasHexPrefix(s) && |s| >= 3 && AllHexDigits(s[2..]))
  }

  /** `int(s, 16)`: `None` stands for the `ValueError` it raises. */
  function ParseHex(s: string): (r: Option<nat>)
    ensures r.Some? <==> IsHexLiteral(s)
  {
    var digits := if HasHexPrefix(s) then s[2..] else s;
    if |digits| >= 1 && AllHexDigits(digits) then Some(DigitsValue(digits)) else None
  }

  function HexChar(d: nat): (c: char)
    requires d < 16
    ensures IsHexDigit(c) && DigitValue(c) == d
  {
    if d < 10 then ('0' as int + d) as char else ('a' as int + d - 10) as char
  }

  /** Lower-case hexadecimal digits of `n` without a prefix, as the
      disassembler prints an immediate after its `0x`. */
  function ToHex(n: nat): (s: string)
    ensures |s| >= 1 && AllHexDigits(s)
    decreases n
  {
    if n < 16 then [HexChar(n)] else ToHex(n / 16) + [HexChar(n % 16)]
  }

  lemma {:induction false} DigitsValueToHex(n: nat)
    ensures DigitsValue(ToHex(n)) == n
    decreases n
  {
    if n >= 16 {
      DigitsValueToHex(n / 16);
      var s := ToHex(n);
      assert s[..|s| - 1] == ToHex(n / 16);
    }
  }

  /** `int(..., 16)` reads back what `ToHex` wrote, with or without the
      `0x` prefix. */
  lemma ParseHexRoundTrip(n: nat)
    ensures ParseHex(ToHex(n)) == Some(n)
    ensures ParseHex("0x" + ToHex(n)) == Some(n)
  {
    DigitsValueToHex(n);
    var s := ToHex(n);
    assert !HasHexPrefix(s) by {
      if |s| >= 2 { assert IsHexDigit(s[1]); }
    }
    assert ("0x" + s)[2..] == s;
  }
}
