/**
 * The few Python built-ins the crawler leans on, written out exactly:
 * list indexing with negative indices, `list.index`, `str.lower`,
 * `str.strip`, `" ".join` and `str(int)` for non-negative integers.
 */
module PyText {
  import opened Wrappers

  /** `s[k]` in Python: a negative index counts from the end. */
  predicate ValidIndex<T>(s: seq<T>, k: int) {
    -|s| <= k < |s|
  }

  function PyAt<T>(s: seq<T>, k: int): (r: T)
    requires ValidIndex(s, k)
    ensures k >= 0 ==> r == s[k]
    ensures k < 0 ==> r == s[|s| + k]
  {
    if k >= 0 then s[k] else s[|s| + k]
  }

  /** `s.index(x)`: the first position of `x`, or None where Python raises ValueError. */
  function IndexOf<T(==)>(s: seq<T>, x: T): (r: Option<nat>)
    ensures r.None? <==> x !in s
    ensures r.Some? ==> r.value < |s| && s[r.value] == x && x !in s[..r.value]
  {
    if |s| == 0 then None
    else if s[0] == x then Some(0)
    else match IndexOf(s[1..], x)
      case None => None
      case Some(j) => assert s[..j + 1] == [s[0]] + s[1..][..j]; Some(j + 1)
  }

  /** The first position of `x` is the only position before which `x` does not occur. */
  lemma IndexOfUnique<T>(s: seq<T>, x: T, j: nat)
    requires j < |s| && s[j] == x && x !in s[..j]
    ensures IndexOf(s, x) == Some(j)
  {
    var r := IndexOf(s, x).value;
    assert s[..r + 1][j] == x ==> r <= j;
  }

  /** `str.lower()`, restricted to ASCII letters. */
  function LowerChar(c: char): char {
    if 'A' <= c <= 'Z' then (c as int + 32) as char else c
  }

  function Lower(s: string): (r: string)
    ensures |r| == |s|
  {
    seq(|s|, i requires 0 <= i < |s| => LowerChar(s[i]))
  }

  /** The characters for which Python's `str.isspace()` holds. */
  predicate IsSpace(c: char) {
    || c == ' ' || '\t' <= c <= '\r' || '\U{1c}' <= c <= '\U{1f}' || c == '\U{85}' || c == '\U{a0}'
    || c == '\U{1680}' || '\U{2000}' <= c <= '\U{200a}' || c == '\U{2028}' || c == '\U{2029}'
    || c == '\U{202f}' || c == '\U{205f}' || c == '\U{3000}'
  }

  function StripLeft(s: string): string
  {
    if |s| > 0 && IsSpace(s[0]) then StripLeft(s[1..]) else s
  }

  function StripRight(s: string): string
  {
    if |s| > 0 && IsSpace(s[|s| - 1]) then StripRight(s[..|s| - 1]) else s
  }

  /** `str.strip()`: leading and trailing whitespace removed. */
  function Strip(s: string): string
  {
    StripRight(StripLeft(s))
  }

  predicate AllSpace(s: string) {
    forall i :: 0 <= i < |s| ==> IsSpace(s[i])
  }

  lemma {:induction false} StripLeftShape(s: string)
    ensures StripLeft(s) == "" <==> AllSpace(s)
    ensures StripLeft(s) != "" ==> !IsSpace(StripLeft(s)[0])
    ensures |StripLeft(s)| <= |s|
    decreases |s|
  {
    if |s| > 0 && IsSpace(s[0]) {
      StripLeftShape(s[1..]);
      if StripLeft(s[1..]) == "" {
        forall i | 0 <= i < |s| ensures IsSpace(s[i]) {
          if i > 0 { assert s[i] == s[1..][i - 1]; }
        }
      } else {
        assert !AllSpace(s[1..]);
        var k :| 0 <= k < |s[1..]| && !IsSpace(s[1..][k]);
        assert !IsSpace(s[k + 1]);
      }
    }
  }

  lemma {:induction false} StripRightShape(s: string)
    ensures StripRight(s) == "" <==> AllSpace(s)
    ensures StripRight(s) != "" ==> StripRight(s)[0] == s[0]
    decreases |s|
  {
    if |s| > 0 && IsSpace(s[|s| - 1]) {
      var t := s[..|s| - 1];
      StripRightShape(t);
      if StripRight(t) == "" {
        forall i | 0 <= i < |s| ensures IsSpace(s[i]) {
          if i < |s| - 1 { assert s[i] == t[i]; }
        }
      } else {
        assert !AllSpace(t);
        var k :| 0 <= k < |t| && !IsSpace(t[k]);
        assert !IsSpace(s[k]);
      }
    }
  }

  /** Stripping leaves nothing exactly when the text is all whitespace. */
  lemma StripEmpty(s: string)
    ensures Strip(s) == "" <==> AllSpace(s)
  {
    StripLeftShape(s);
    StripRightShape(StripLeft(s));
  }

  /** A stripped non-empty text does not strip to nothing again (`x.strip().strip() != ""`). */
  lemma StripStripEmpty(s: string)
    ensures Strip(Strip(s)) == "" <==> Strip(s) == ""
  {
    StripLeftShape(s);
    StripRightShape(StripLeft(s));
    StripEmpty(Strip(s));
    if Strip(s) != "" {
      assert !IsSpace(Strip(s)[0]);
    }
  }

  /** `" ".join(parts)`. */
  function Join(parts: seq<string>): string
  {
    if |parts| == 0 then "" else if |parts| == 1 then parts[0] else parts[0] + " " + Join(parts[1..])
  }

  function Digit(d: nat): char
    requires d < 10
  {
    "0123456789"[d]
  }

  function DigitValue(c: char): nat
  {
    if '0' <= c <= '9' then (c as int - '0' as int) else 0
  }

  /** `str(n)` for a non-negative integer: its decimal digits, most significant first. */
  function NatToString(n: nat): (r: string)
    ensures |r| > 0
    ensures forall i :: 0 <= i < |r| ==> '0' <= r[i] <= '9'
    decreases n
  {
    if n < 10 then [Digit(n)] else NatToString(n / 10) + [Digit(n % 10)]
  }

  /** Reading decimal digits back, as `int(s)` does for a string of digits. */
  function ParseNat(s: string): nat
    decreases |s|
  {
    if |s| == 0 then 0 else 10 * ParseNat(s[..|s| - 1]) + DigitValue(s[|s| - 1])
  }

  /** The id printed into an output line can be read back: `int(str(n)) == n`. */
  lemma {:induction false} ParseNatToString(n: nat)
    ensures ParseNat(NatToString(n)) == n
    decreases n
  {
    var s := NatToString(n);
    if n < 10 {
      assert DigitValue(Digit(n)) == n;
      assert s[..0] == [];
    } else {
      ParseNatToString(n / 10);
      assert s[..|s| - 1] == NatToString(n / 10);
      assert DigitValue(Digit(n % 10)) == n % 10;
    }
  }
}
