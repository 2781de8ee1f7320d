/**
 * The string operations the command-line tools rely on: ASCII case mapping
 * (`str.lower`/`str.upper`), whitespace stripping (`str.strip`), cutting a line
 * at its first '#', splitting on a separator (`str.split`) and decimal digits.
 */
module Text {

  predicate IsUpperChar(c: char) { 'A' <= c <= 'Z' }

  predicate IsLowerChar(c: char) { 'a' <= c <= 'z' }

  function LowerChar(c: char): (r: char)
    ensures !IsUpperChar(r)
    ensures IsLowerChar(c) || IsUpperChar(c) || r == c
  {
    if IsUpperChar(c) then (c as int - 'A' as int + 'a' as int) as char else c
  }

  function UpperChar(c: char): (r: char)
    ensures !IsLowerChar(r)
    ensures IsLowerChar(c) || IsUpperChar(c) || r == c
  {
    if IsLowerChar(c) then (c as int - 'a' as int + 'A' as int) as char else c
  }

  /** `str.lower()` on the ASCII letters. */
  function Lower(s: string): (r: string)
    ensures |r| == |s|
    ensures forall i :: 0 <= i < |s| ==> r[i] == LowerChar(s[i])
  {
    seq(|s|, i requires 0 <= i < |s| => LowerChar(s[i]))
  }

  /** `str.upper()` on the ASCII letters. */
  function Upper(s: string): (r: string)
    ensures |r| == |s|
    ensures forall i :: 0 <= i < |s| ==> r[i] == UpperChar(s[i])
  {
    seq(|s|, i requires 0 <= i < |s| => UpperChar(s[i]))
  }

  /** Lowering a string twice changes nothing further. */
  lemma LowerIdempotent(s: string)
    ensures Lower(Lower(s)) == Lower(s)
  {
  }

  /** Lowering an upper-cased string gives the string lowered. */
  lemma LowerOfUpper(s: string)
    ensures Lower(Upper(s)) == Lower(s)
  {
  }

  /** Upper-casing a string twice changes nothing further. */
  lemma UpperIdempotent(s: string)
    ensures Upper(Upper(s)) == Upper(s)
  {
  }

  /**
   * A lower-cased string can only coincide with an upper-cased one when
   * neither has a letter, and then upper-casing changed nothing.
   */
  lemma LowerMeetsUpper(x: string, d: string)
    requires Lower(x) == Upper(d)
    ensures Upper(d) == d
  {
    forall i | 0 <= i < |d|
      ensures Upper(d)[i] == d[i]
    {
      assert Upper(d)[i] == LowerChar(x[i]);
    }
  }

  /** The characters `str.strip()` removes (the ASCII ones). */
  predicate IsSpace(c: char) {
    c == ' ' || c == '\t' || c == '\n' || c == '\r' || c == '\U{B}' || c == '\U{C}'
    || c == '\U{1C}' || c == '\U{1D}' || c == '\U{1E}' || c == '\U{1F}'
  }

  /** No whitespace at either end (the empty string qualifies). */
  predicate IsStripped(s: string) {
    |s| == 0 || (!IsSpace(s[0]) && !IsSpace(s[|s| - 1]))
  }

  function StripLeft(s: string): (r: string)
    ensures |r| <= |s| && r == s[|s| - |r|..]
    ensures |r| == 0 || !IsSpace(r[0])
    ensures forall i :: 0 <= i < |s| - |r| ==> IsSpace(s[i])
    decreases |s|
  {
    if |s| > 0 && IsSpace(s[0]) then StripLeft(s[1..]) else s
  }

  function StripRight(s: string): (r: string)
    ensures |r| <= |s| && r == s[..|r|]
    ensures |r| == 0 || !IsSpace(r[|r| - 1])
    ensures forall i :: |r| <= i < |s| ==> IsSpace(s[i])
    decreases |s|
  {
    if |s| > 0 && IsSpace(s[|s| - 1]) then StripRight(s[..|s| - 1]) else s
  }

  /** `str.strip()`: the longest infix of `s` without whitespace at either end. */
  function Strip(s: string): (r: string)
    ensures IsStripped(r)
  {
    var l := StripLeft(s);
    var r := StripRight(l);
    StripEnds(s, l, r);
    r
  }

  lemma StripEnds(s: string, l: string, r: string)
    requires l == StripLeft(s) && r == StripRight(l)
    ensures IsStripped(r)
  {
    if |r| > 0 {
      StripKeepsFirst(s, l, r);
    }
  }

  /** Stripping only removes characters. */
  lemma StripKeeps(s: string)
    ensures forall c :: c in Strip(s) ==> c in s
  {
    StripInfix(s, StripLeft(s), Strip(s));
  }

  /** A string strips to nothing exactly when it is all whitespace. */
  lemma StripEmpty(s: string)
    ensures (exists i :: 0 <= i < |s| && !IsSpace(s[i])) <==> |Strip(s)| > 0
  {
    var l := StripLeft(s);
    var r := Strip(s);
    if |r| > 0 {
      StripKeepsFirst(s, l, r);
    } else {
      StripAllSpace(s, l);
    }
  }

  lemma StripInfix(s: string, l: string, r: string)
    requires l == StripLeft(s) && r == StripRight(l)
    ensures forall c :: c in r ==> c in s
  {
    var off := |s| - |l|;
    forall c | c in r
      ensures c in s
    {
      var k :| 0 <= k < |r| && r[k] == c;
      assert s[off + k] == l[k] == c;
    }
  }

  lemma StripKeepsFirst(s: string, l: string, r: string)
    requires l == StripLeft(s) && r == StripRight(l) && |r| > 0
    ensures !IsSpace(r[0]) && !IsSpace(r[|r| - 1])
    ensures !IsSpace(s[|s| - |l|])
  {
    assert r[0] == l[0];
  }

  /** Only an all-whitespace string strips to nothing. */
  lemma StripAllSpace(s: string, l: string)
    requires l == StripLeft(s) && |StripRight(l)| == 0
    ensures forall i :: 0 <= i < |s| ==> IsSpace(s[i])
  {
    assert |l| == 0;
  }

  /** A string already free of surrounding whitespace is left alone. */
  lemma {:induction false} StripFixesStripped(s: string)
    ensures IsStripped(s) ==> Strip(s) == s
  {
  }

  /** The index of the first `c` in `s` (`str.find`), or -1. */
  function Find(s: string, c: char): (r: int)
    ensures -1 <= r < |s|
    ensures r == -1 <==> c !in s
    ensures r >= 0 ==> s[r] == c && c !in s[..r]
    decreases |s|
  {
    if |s| == 0 then -1
    else if s[0] == c then 0
    else
      var k := Find(s[1..], c);
      assert s[1..][..if k < 0 then 0 else k] == s[1..1 + (if k < 0 then 0 else k)];
      if k < 0 then -1 else k + 1
  }

  /** `c` is first found where `b` begins when `a` does not hold it. */
  lemma FindAfter(a: string, b: string, c: char)
    requires c !in a && |b| > 0 && b[0] == c
    ensures Find(a + b, c) == |a|
  {
    var s := a + b;
    var r := Find(s, c);
    assert s[|a|] == c;
    assert forall m :: 0 <= m < |a| ==> s[m] == a[m];
  }

  /** The text before the first '#', or the whole line when it has none. */
  function CutComment(line: string): (r: string)
    ensures '#' !in r
    ensures r <= line
    ensures '#' !in line ==> r == line
    ensures |r| < |line| ==> line[|r|] == '#'
  {
    var idx := Find(line, '#');
    if idx > -1 then line[..idx] else line
  }

  /**
   * `s.split(sep)`: the maximal runs between separators, empty runs
   * included, so that there is always one more piece than separators.
   */
  function Split(s: string, sep: char): (r: seq<string>)
    ensures |r| >= 1
    ensures forall i :: 0 <= i < |r| ==> sep !in r[i]
    decreases |s|
  {
    var idx := Find(s, sep);
    if idx < 0 then [s]
    else
      var rest := Split(s[idx + 1..], sep);
      var r := [s[..idx]] + rest;
      assert forall i :: 1 <= i < |r| ==> r[i] == rest[i - 1];
      r
  }

  /** `sep.join(parts)`. */
  function Join(parts: seq<string>, sep: char): string
  {
    if |parts| == 0 then ""
    else if |parts| == 1 then parts[0]
    else parts[0] + [sep] + Join(parts[1..], sep)
  }

  lemma JoinCons(a: string, rest: seq<string>, sep: char)
    requires |rest| >= 1
    ensures Join([a] + rest, sep) == a + [sep] + Join(rest, sep)
  {
    assert ([a] + rest)[1..] == rest;
  }

  /** Splitting then joining with the same separator restores the string. */
  lemma {:induction false} JoinSplit(s: string, sep: char)
    ensures Join(Split(s, sep), sep) == s
    decreases |s|
  {
    var idx := Find(s, sep);
    if idx >= 0 {
      var rest := Split(s[idx + 1..], sep);
      JoinCons(s[..idx], rest, sep);
      JoinSplit(s[idx + 1..], sep);
      assert s == s[..idx] + [sep] + s[idx + 1..];
    }
  }

  /** Splitting at the first separator. */
  lemma SplitCons(a: string, tail: string, sep: char)
    requires sep !in a
    ensures Split(a + [sep] + tail, sep) == [a] + Split(tail, sep)
  {
    var s := a + [sep] + tail;
    assert s == a + ([sep] + tail);
    FindAfter(a, [sep] + tail, sep);
    assert s[..|a|] == a;
    assert s[|a| + 1..] == tail;
  }

  /** Joining separator-free pieces and splitting again gives the pieces back. */
  lemma {:induction false} SplitJoin(parts: seq<string>, sep: char)
    requires |parts| >= 1
    requires forall i :: 0 <= i < |parts| ==> sep !in parts[i]
    ensures Split(Join(parts, sep), sep) == parts
    decreases |parts|
  {
    if |parts| > 1 {
      var tail := Join(parts[1..], sep);
      assert Join(parts, sep) == parts[0] + [sep] + tail;
      SplitCons(parts[0], tail, sep);
      SplitJoin(parts[1..], sep);
      assert parts == [parts[0]] + parts[1..];
    }
  }

  predicate IsDigitChar(c: char) { '0' <= c <= '9' }

  /** `str.isdigit()`: non-empty and decimal digits only. */
  predicate IsDigits(s: string) {
    |s| > 0 && forall i :: 0 <= i < |s| ==> IsDigitChar(s[i])
  }

  /** `int(s)` for a string of decimal digits (leading zeros allowed). */
  function DigitsValue(s: string): nat
    requires forall i :: 0 <= i < |s| ==> IsDigitChar(s[i])
    decreases |s|
  {
    if |s| == 0 then 0
    else
      var d := s[|s| - 1];
      assert IsDigitChar(d);
      DigitsValue(s[..|s| - 1]) * 10 + (d as int - '0' as int)
  }

  /** The shortest decimal spelling of `n`. */
  function NatToDigits(n: nat): (r: string)
    ensures IsDigits(r)
    decreases n
  {
    var d := ['0' + (n % 10) as char];
    if n < 10 then d else NatToDigits(n / 10) + d
  }

  lemma {:induction false} DigitsValueOfNat(n: nat)
    ensures DigitsValue(NatToDigits(n)) == n
    decreases n
  {
    var s := NatToDigits(n);
    if n >= 10 {
      DigitsValueOfNat(n / 10);
      assert s[..|s| - 1] == NatToDigits(n / 10);
    }
  }
}
