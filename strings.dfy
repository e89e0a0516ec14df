/** The pieces of Go's `strings` package (and of `fmt`'s `%3d`) that the plugin relies on. */
module Strings {
  import opened Common

  /** `sub` occurs in `s` starting at index `i`. */
  predicate OccursAt(s: string, sub: string, i: nat)
  {
    i + |sub| <= |s| && s[i..i + |sub|] == sub
  }

  /** `strings.Index`: the first index at which `sub` occurs in `s`, or None. */
  function IndexOf(s: string, sub: string): (r: Option<nat>)
    ensures r.Some? ==> OccursAt(s, sub, r.value)
    ensures r.Some? ==> forall j :: 0 <= j < r.value ==> !OccursAt(s, sub, j)
    ensures r.None? ==> forall j :: 0 <= j <= |s| ==> !OccursAt(s, sub, j)
  {
    SearchFrom(s, sub, 0)
  }

  /** Searches for `sub` at the indices `from`, `from + 1`, ... of `s`. */
  function SearchFrom(s: string, sub: string, from: nat): (r: Option<nat>)
    requires from <= |s|
    ensures r.Some? ==> from <= r.value && OccursAt(s, sub, r.value)
    ensures r.Some? ==> forall j :: from <= j < r.value ==> !OccursAt(s, sub, j)
    ensures r.None? ==> forall j :: from <= j <= |s| ==> !OccursAt(s, sub, j)
    decreases |s| - from
  {
    if OccursAt(s, sub, from) then Some(from)
    else if from + |sub| >= |s| then None
    else SearchFrom(s, sub, from + 1)
  }

  /** An occurrence, checked character by character. */
  lemma OccursAtByChars(s: string, sub: string, i: nat)
    requires i + |sub| <= |s|
    requires forall j :: 0 <= j < |sub| ==> s[i + j] == sub[j]
    ensures OccursAt(s, sub, i)
  {
    assert s[i..i + |sub|] == sub;
  }

  /** An occurrence with none before it is the one `IndexOf` finds. */
  lemma IndexOfFirst(s: string, sub: string, i: nat)
    requires OccursAt(s, sub, i)
    requires forall j :: 0 <= j < i ==> !OccursAt(s, sub, j)
    ensures IndexOf(s, sub) == Some(i)
  {
  }

  /** `strings.Contains`. */
  predicate Contains(s: string, sub: string)
  {
    IndexOf(s, sub).Some?
  }

  /** The text before the first occurrence of `sub` does not contain `sub`. */
  lemma BeforeFirst(s: string, sub: string, i: nat)
    requires |sub| > 0 && IndexOf(s, sub) == Some(i)
    ensures !Contains(s[..i], sub)
  {
    forall j | 0 <= j <= i ensures !OccursAt(s[..i], sub, j) {
      if j + |sub| <= i {
        assert s[..i][j..j + |sub|] == s[j..j + |sub|];
        assert j < i && !OccursAt(s, sub, j);
      }
    }
  }

  /** A string in which the character `c` does not appear does not contain `[c]`. */
  lemma WithoutChar(s: string, c: char)
    requires forall i :: 0 <= i < |s| ==> s[i] != c
    ensures !Contains(s, [c])
  {
    forall j | 0 <= j <= |s| ensures !OccursAt(s, [c], j) {
      if j < |s| {
        assert s[j..j + 1][0] == s[j];
      }
    }
  }

  /** `strings.TrimLeft`: drops the longest prefix made only of characters of `cutset`. */
  function TrimLeft(s: string, cutset: string): (r: string)
    ensures |r| <= |s| && r == s[|s| - |r|..]
    ensures forall i :: 0 <= i < |s| - |r| ==> s[i] in cutset
    ensures r == [] || r[0] !in cutset
  {
    if |s| > 0 && s[0] in cutset then TrimLeft(s[1..], cutset) else s
  }

  /** `strings.TrimRight`: drops the longest suffix made only of characters of `cutset`. */
  function TrimRight(s: string, cutset: string): (r: string)
    ensures |r| <= |s| && r == s[..|r|]
    ensures forall i :: |r| <= i < |s| ==> s[i] in cutset
    ensures r == [] || r[|r| - 1] !in cutset
  {
    if |s| > 0 && s[|s| - 1] in cutset then TrimRight(s[..|s| - 1], cutset) else s
  }

  /** `strings.Trim`: trims characters of `cutset` from both ends; an empty cutset changes nothing. */
  function Trim(s: string, cutset: string): (r: string)
    ensures cutset == [] ==> r == s
    ensures |r| <= |s|
  {
    TrimRight(TrimLeft(s, cutset), cutset)
  }

  /** `strings.Join(parts, "")`: the concatenation of all parts. */
  function Flatten(parts: seq<string>): (r: string)
    ensures |parts| == 1 ==> r == parts[0]
  {
    if parts == [] then [] else parts[0] + Flatten(parts[1..])
  }

  lemma {:induction false} FlattenAppend(a: seq<string>, b: seq<string>)
    ensures Flatten(a + b) == Flatten(a) + Flatten(b)
  {
    if a == [] {
      assert a + b == b;
    } else {
      assert (a + b)[1..] == a[1..] + b;
      FlattenAppend(a[1..], b);
    }
  }

  predicate IsDigit(c: char)
  {
    '0' <= c <= '9'
  }

  /** The value of a decimal digit. */
  function DigitValue(c: char): (d: nat)
    requires IsDigit(c)
    ensures d < 10
  {
    c as int - '0' as int
  }

  /** The decimal numeral of `n`, as `%d` prints it. */
  function Decimal(n: nat): (r: string)
    ensures |r| >= 1 && forall i :: 0 <= i < |r| ==> IsDigit(r[i])
    ensures |r| > 1 ==> r[0] != '0'
  {
    if n < 10 then [(n + '0' as int) as char]
    else Decimal(n / 10) + [((n % 10) + '0' as int) as char]
  }

  /** Reads a string of digits back as a number. */
  function DigitsValue(s: string): nat
    requires forall i :: 0 <= i < |s| ==> IsDigit(s[i])
  {
    if s == [] then 0 else 10 * DigitsValue(s[..|s| - 1]) + DigitValue(s[|s| - 1])
  }

  /** The numeral `Decimal` prints reads back as the number it was printed from. */
  lemma {:induction false} DecimalRoundTrip(n: nat)
    ensures DigitsValue(Decimal(n)) == n
  {
    if n >= 10 {
      var d := Decimal(n);
      assert d[..|d| - 1] == Decimal(n / 10);
      DecimalRoundTrip(n / 10);
    }
  }

  /** A number below 1000 prints in at most three digits. */
  lemma ShortDecimal(n: nat)
    ensures n < 1000 ==> |Decimal(n)| <= 3
  {
    if 10 <= n < 1000 {
      assert |Decimal(n)| == |Decimal(n / 10)| + 1;
      if n / 10 >= 10 {
        assert |Decimal(n / 10)| == |Decimal(n / 100)| + 1;
      }
    }
  }

  /** Trimming the spaces `%3d` pads with gives back a numeral that does not start with a space. */
  lemma {:induction false} TrimPadding(d: string)
    requires |d| > 0 && d[0] != ' '
    ensures TrimLeft(PadLeft3(d), " ") == d
  {
    var p := PadLeft3(d);
    assert p[|p| - |d|] == d[0] && d[0] !in " ";
    assert forall i :: 0 <= i < |p| - |d| ==> p[i] in " ";
  }

  /** `%3d`: the numeral right-aligned in a field of width three. */
  function PadLeft3(s: string): (r: string)
    ensures |r| == if |s| < 3 then 3 else |s|
    ensures r[|r| - |s|..] == s
    ensures forall i :: 0 <= i < |r| - |s| ==> r[i] == ' '
  {
    if |s| < 3 then seq(3 - |s|, _ => ' ') + s else s
  }
}
