/**
 * The few string operations of Python's `str` that the converter relies on:
 * `in`, `find`/`rfind`, `split(sep)`, `rsplit(sep, 1)`, `sep.join(parts)`,
 * `endswith`, slicing with clamped bounds, `int(text)` and `str(n)`.
 */
module Text {
  import opened Results

  /** `sep` occurs in `s` at position `i`. */
  predicate OccursAt(s: string, sep: string, i: int)
  {
    0 <= i && i + |sep| <= |s| && s[i..i + |sep|] == sep
  }

  /** Python's `sep in s`. */
  predicate Contains(s: string, sep: string)
  {
    exists i :: 0 <= i <= |s| && OccursAt(s, sep, i)
  }

  /** The first occurrence of `sep` in `s` at or after `from`. */
  function FindFrom(s: string, sep: string, from: nat): (r: Option<nat>)
    requires from <= |s|
    ensures r.Some? ==> from <= r.value && OccursAt(s, sep, r.value)
    ensures r.Some? ==> forall j :: from <= j < r.value ==> !OccursAt(s, sep, j)
    ensures r.None? ==> forall j :: from <= j ==> !OccursAt(s, sep, j)
    decreases |s| - from
  {
    if OccursAt(s, sep, from) then Some(from)
    else if from == |s| then None
    else FindFrom(s, sep, from + 1)
  }

  /** Python's `s.find(sep)`, with `None` for -1. */
  function Find(s: string, sep: string): (r: Option<nat>)
    ensures r.Some? ==> OccursAt(s, sep, r.value)
    ensures r.Some? ==> forall j :: 0 <= j < r.value ==> !OccursAt(s, sep, j)
    ensures r.None? <==> !Contains(s, sep)
  {
    FindFrom(s, sep, 0)
  }

  /** The last occurrence of `sep` in `s` at or before `upTo`. */
  function FindLastUpTo(s: string, sep: string, upTo: nat): (r: Option<nat>)
    ensures r.Some? ==> r.value <= upTo && OccursAt(s, sep, r.value)
    ensures r.Some? ==> forall j :: r.value < j <= upTo ==> !OccursAt(s, sep, j)
    ensures r.None? ==> forall j :: 0 <= j <= upTo ==> !OccursAt(s, sep, j)
    decreases upTo
  {
    if OccursAt(s, sep, upTo) then Some(upTo)
    else if upTo == 0 then None
    else FindLastUpTo(s, sep, upTo - 1)
  }

  /** Python's `s.rfind(sep)`, with `None` for -1. */
  function FindLast(s: string, sep: string): (r: Option<nat>)
    ensures r.Some? ==> OccursAt(s, sep, r.value)
    ensures r.Some? ==> forall j :: r.value < j ==> !OccursAt(s, sep, j)
    ensures r.None? <==> !Contains(s, sep)
  {
    FindLastUpTo(s, sep, |s|)
  }

  /** Python's `sep.join(parts)`. */
  function Join(parts: seq<string>, sep: string): (r: string)
    ensures parts != [] ==> |parts[0]| <= |r| && r[..|parts[0]|] == parts[0]
    ensures |parts| == 1 ==> r == parts[0]
    ensures |parts| >= 2 ==> OccursAt(r, sep, |parts[0]|)
  {
    if |parts| == 0 then ""
    else if |parts| == 1 then parts[0]
    else parts[0] + sep + Join(parts[1..], sep)
  }

  /**
   * Python's `s.split(sep)` for a non-empty separator: cut at every
   * occurrence found scanning from the left, keeping empty pieces.
   */
  function Split(s: string, sep: string): (parts: seq<string>)
    requires sep != []
    ensures |parts| >= 1
    ensures Join(parts, sep) == s
    ensures |parts| == 1 <==> !Contains(s, sep)
    ensures forall k :: 0 <= k < |parts| ==> !Contains(parts[k], sep)
    ensures forall k :: 0 <= k < |parts| - 1 ==> !Contains(parts[k] + sep[..|sep| - 1], sep)
    decreases |s|
  {
    match Find(s, sep)
    case None => [s]
    case Some(i) =>
      var rest := Split(s[i + |sep|..], sep);
      SplitCut(s, sep, i, rest);
      [s[..i]] + rest
  }

  /** Cutting `s` at its first occurrence of `sep`, before a split of the remainder, splits `s`. */
  lemma SplitCut(s: string, sep: string, i: nat, rest: seq<string>)
    requires sep != []
    requires OccursAt(s, sep, i) && forall j :: 0 <= j < i ==> !OccursAt(s, sep, j)
    requires |rest| >= 1 && Join(rest, sep) == s[i + |sep|..]
    requires forall k :: 0 <= k < |rest| ==> !Contains(rest[k], sep)
    requires forall k :: 0 <= k < |rest| - 1 ==> !Contains(rest[k] + sep[..|sep| - 1], sep)
    ensures var parts := [s[..i]] + rest;
            |parts| > 1 && Join(parts, sep) == s && Contains(s, sep) &&
            forall k :: 0 <= k < |parts| ==> !Contains(parts[k], sep)
    ensures var parts := [s[..i]] + rest;
            forall k :: 0 <= k < |parts| - 1 ==> !Contains(parts[k] + sep[..|sep| - 1], sep)
  {
    FirstPieceIsFree(s, sep, i);
    CutIsLeftmost(s, sep, i);
    var parts := [s[..i]] + rest;
    assert parts[0] == s[..i] && parts[1..] == rest;
    assert Join(parts, sep) == s[..i] + sep + Join(rest, sep);
    assert s == s[..i] + s[i..i + |sep|] + s[i + |sep|..];
    forall k | 0 <= k < |parts|
      ensures !Contains(parts[k], sep)
    {
      if k > 0 {
        assert parts[k] == rest[k - 1];
      }
    }
    forall k | 0 <= k < |parts| - 1
      ensures !Contains(parts[k] + sep[..|sep| - 1], sep)
    {
      if k > 0 {
        assert parts[k] == rest[k - 1];
      }
    }
  }

  /**
   * No occurrence of `sep` starts before the first one, even one running
   * into it: the first piece followed by all but the last character of
   * `sep` does not contain `sep`.
   */
  lemma CutIsLeftmost(s: string, sep: string, i: nat)
    requires sep != []
    requires OccursAt(s, sep, i)
    requires forall j :: 0 <= j < i ==> !OccursAt(s, sep, j)
    ensures !Contains(s[..i] + sep[..|sep| - 1], sep)
  {
    var t := s[..i] + sep[..|sep| - 1];
    assert t == s[..i + |sep| - 1];
    forall j | 0 <= j <= |t|
      ensures !OccursAt(t, sep, j)
    {
      if j + |sep| <= |t| {
        assert t[j..j + |sep|] == s[j..j + |sep|];
        assert !OccursAt(s, sep, j);
      }
    }
  }

  /** Nothing before the first occurrence of `sep` contains `sep`. */
  lemma FirstPieceIsFree(s: string, sep: string, i: nat)
    requires sep != []
    requires OccursAt(s, sep, i)
    requires forall j :: 0 <= j < i ==> !OccursAt(s, sep, j)
    ensures !Contains(s[..i], sep)
  {
    forall j | 0 <= j <= i
      ensures !OccursAt(s[..i], sep, j)
    {
      if j + |sep| <= i {
        assert s[..i][j..j + |sep|] == s[j..j + |sep|];
        assert !OccursAt(s, sep, j);
      }
    }
  }

  /** Cutting at a one-character separator: a first piece free of it is split off as is. */
  lemma SplitAtFirst(first: string, sep: string, rest: string)
    requires |sep| == 1 && !Contains(first, sep)
    ensures Split(first + sep + rest, sep) == [first] + Split(rest, sep)
  {
    var s := first + sep + rest;
    assert OccursAt(s, sep, |first|) by {
      assert s[|first|..|first| + 1] == sep;
    }
    var found := Find(s, sep);
    if found.value < |first| {
      assert first[found.value..found.value + 1] == s[found.value..found.value + 1];
      assert OccursAt(first, sep, found.value);
    }
    assert s[..|first|] == first && s[|first| + 1..] == rest;
  }

  /** Three pieces free of a one-character separator, joined by it, split back into those pieces. */
  lemma SplitThree(a: string, b: string, c: string, sep: string)
    requires |sep| == 1 && !Contains(a, sep) && !Contains(b, sep) && !Contains(c, sep)
    ensures Split(a + sep + b + sep + c, sep) == [a, b, c]
  {
    var tail := b + sep + c;
    assert a + sep + b + sep + c == a + sep + tail;
    SplitWithout(c, sep);
    SplitAtFirst(b, sep, c);
    assert Split(tail, sep) == [b, c];
    SplitAtFirst(a, sep, tail);
    assert [a] + [b, c] == [a, b, c];
  }

  /** A text free of the separator splits into itself alone. */
  lemma SplitWithout(s: string, sep: string)
    requires sep != [] && !Contains(s, sep)
    ensures Split(s, sep) == [s]
  {
    assert Find(s, sep).None?;
  }

  /** Python's `s.endswith(suffix)`. */
  predicate EndsWith(s: string, suffix: string)
  {
    |suffix| <= |s| && s[|s| - |suffix|..] == suffix
  }

  /** Python's `s[:n]` for n >= 0 (on strings and lists alike). */
  function Prefix<T>(s: seq<T>, n: nat): (r: seq<T>)
    ensures |r| == if |s| <= n then |s| else n
    ensures forall i :: 0 <= i < |r| ==> r[i] == s[i]
  {
    if |s| <= n then s else s[..n]
  }

  /** Python's `s[i:j]` for 0 <= i, j: both bounds are clamped to the length. */
  function Slice(s: string, i: nat, j: nat): (r: string)
    ensures i <= j <= |s| ==> r == s[i..j]
    ensures |s| <= i ==> r == ""
  {
    var hi := if j <= |s| then j else |s|;
    if i < hi then s[i..hi] else ""
  }

  predicate IsDigit(c: char)
  {
    '0' <= c <= '9'
  }

  /** A non-empty string of ASCII decimal digits. */
  predicate IsDigits(s: string)
  {
    |s| > 0 && forall i :: 0 <= i < |s| ==> IsDigit(s[i])
  }

  function DigitValue(c: char): nat
    requires IsDigit(c)
  {
    c as int - '0' as int
  }

  /** The number a string of decimal digits denotes. */
  function DigitsValue(s: string): nat
    requires forall i :: 0 <= i < |s| ==> IsDigit(s[i])
  {
    if |s| == 0 then 0 else DigitsValue(s[..|s| - 1]) * 10 + DigitValue(s[|s| - 1])
  }

  /** Python's `int(s)` on an optional sign followed by ASCII digits; `None` stands for ValueError. */
  function ParseInt(s: string): (r: Option<int>)
    ensures r.Some? ==> s != []
    ensures r.Some? && s[0] != '-' ==> r.value >= 0
    ensures r.Some? && s[0] == '-' ==> r.value <= 0
    ensures IsDigits(s) ==> r == Some(DigitsValue(s))
    ensures r.Some? <==> IsDigits(s) || (|s| > 1 && (s[0] == '+' || s[0] == '-') && IsDigits(s[1..]))
    ensures |s| > 1 && s[0] == '+' && IsDigits(s[1..]) ==> r == Some(DigitsValue(s[1..]))
    ensures |s| > 1 && s[0] == '-' && IsDigits(s[1..]) ==> r == Some(0 - DigitsValue(s[1..]))
  {
    if IsDigits(s) then Some(DigitsValue(s))
    else if |s| > 1 && s[0] == '+' && IsDigits(s[1..]) then Some(DigitsValue(s[1..]))
    else if |s| > 1 && s[0] == '-' && IsDigits(s[1..]) then Some(0 - DigitsValue(s[1..]))
    else None
  }

  function DigitChar(d: nat): (c: char)
    requires d < 10
    ensures IsDigit(c) && DigitValue(c) == d
  {
    ('0' as int + d) as char
  }

  /** Python's `str(n)` for n >= 0: decimal digits without leading zeros. */
  function DecimalText(n: nat): (s: string)
    ensures IsDigits(s)
    ensures |s| > 1 ==> s[0] != '0'
  {
    if n < 10 then [DigitChar(n)] else DecimalText(n / 10) + [DigitChar(n % 10)]
  }

  /** `int(str(n)) == n`. */
  lemma {:induction false} DecimalTextValue(n: nat)
    ensures DigitsValue(DecimalText(n)) == n
    ensures ParseInt(DecimalText(n)) == Some(n)
  {
    var s := DecimalText(n);
    if n >= 10 {
      DecimalTextValue(n / 10);
      assert s[..|s| - 1] == DecimalText(n / 10);
    }
  }
}
