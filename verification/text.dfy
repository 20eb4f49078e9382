/**
 * The parts of Go's `strings` and `strconv` packages that the server relies on:
 * splitting on a separator, joining, prefix/suffix trimming, `%d` formatting of a
 * non-negative integer and `strconv.ParseInt(s, 10, 64)`.
 */
module Text {
  import opened Results

  // ---------------------------------------------------------------------------
  // strings.Split / strings.Join
  // ---------------------------------------------------------------------------

  /** strings.Split(s, string(sep)): the pieces of `s` between occurrences of `sep`,
      in order. There is always at least one piece (the empty string splits to [""]). */
  function Split(s: string, sep: char): (pieces: seq<string>)
    ensures |pieces| >= 1
    ensures forall i :: 0 <= i < |pieces| ==> sep !in pieces[i]
    decreases |s|
  {
    if |s| == 0 then [""]
    else
      var rest := Split(s[1..], sep);
      if s[0] == sep then [""] + rest
      else [[s[0]] + rest[0]] + rest[1..]
  }

  /** strings.Join(parts, sep). */
  function Join(parts: seq<string>, sep: string): string
    decreases |parts|
  {
    if |parts| == 0 then ""
    else if |parts| == 1 then parts[0]
    else parts[0] + sep + Join(parts[1..], sep)
  }

  /** Concatenation of the pieces, i.e. strings.Join(parts, ""). */
  function Concat(parts: seq<string>): string
  {
    Join(parts, "")
  }

  lemma JoinCons(x: string, rest: seq<string>, sep: string)
    requires |rest| >= 1
    ensures Join([x] + rest, sep) == x + sep + Join(rest, sep)
  {
    assert ([x] + rest)[1..] == rest;
  }

  lemma JoinPrependChar(c: char, r: seq<string>, sep: string)
    requires |r| >= 1
    ensures Join([[c] + r[0]] + r[1..], sep) == [c] + Join(r, sep)
  {
    if |r| > 1 {
      JoinCons([c] + r[0], r[1..], sep);
      assert r == [r[0]] + r[1..];
      JoinCons(r[0], r[1..], sep);
    }
  }

  /** Splitting and re-joining with the same separator gives the string back. */
  lemma {:induction false} JoinSplit(s: string, sep: char)
    ensures Join(Split(s, sep), [sep]) == s
    decreases |s|
  {
    if |s| > 0 {
      JoinSplit(s[1..], sep);
      var rest := Split(s[1..], sep);
      if s[0] == sep {
        JoinCons("", rest, [sep]);
        assert s == [sep] + s[1..];
      } else {
        JoinPrependChar(s[0], rest, [sep]);
        assert s == [s[0]] + s[1..];
      }
    }
  }

  /** A string without the separator is a single piece. */
  lemma {:induction false} SplitNoSep(s: string, sep: char)
    requires sep !in s
    ensures Split(s, sep) == [s]
    decreases |s|
  {
    if |s| > 0 {
      SplitNoSep(s[1..], sep);
      assert s == [s[0]] + s[1..];
    }
  }

  /** A leading separator contributes an empty first piece. */
  lemma SplitLeadingSep(t: string, c: char)
    ensures Split([c] + t, c) == [""] + Split(t, c)
  {
    assert ([c] + t)[1..] == t;
  }

  /** A trailing separator contributes an empty last piece. */
  lemma SplitTrailingSep(t: string, c: char)
    ensures Split(t + [c], c) == Split(t, c) + [""]
  {
    assert t + [c] + "" == t + [c];
    SplitAround(t, "", c);
  }

  /** Splitting around one separator splits each side independently. */
  lemma {:induction false} SplitAround(a: string, b: string, sep: char)
    ensures Split(a + [sep] + b, sep) == Split(a, sep) + Split(b, sep)
    decreases |a|
  {
    var s := a + [sep] + b;
    if |a| == 0 {
      assert s[1..] == b;
    } else {
      assert s[1..] == a[1..] + [sep] + b;
      SplitAround(a[1..], b, sep);
    }
  }

  /** Joining separator-free pieces and splitting again gives the pieces back. */
  lemma {:induction false} SplitJoin(parts: seq<string>, sep: char)
    requires |parts| >= 1
    requires forall i :: 0 <= i < |parts| ==> sep !in parts[i]
    ensures Split(Join(parts, [sep]), sep) == parts
    decreases |parts|
  {
    if |parts| == 1 {
      SplitNoSep(parts[0], sep);
    } else {
      SplitJoin(parts[1..], sep);
      SplitAround(parts[0], Join(parts[1..], [sep]), sep);
      SplitNoSep(parts[0], sep);
      assert parts == [parts[0]] + parts[1..];
    }
  }

  /** Joining two non-empty lists puts one separator between them. */
  lemma {:induction false} JoinAppend(a: seq<string>, b: seq<string>, sep: string)
    requires |a| >= 1 && |b| >= 1
    ensures Join(a + b, sep) == Join(a, sep) + sep + Join(b, sep)
    decreases |a|
  {
    if |a| == 1 {
      JoinCons(a[0], b, sep);
    } else {
      assert (a + b)[1..] == a[1..] + b;
      JoinAppend(a[1..], b, sep);
    }
  }

  /** No piece holds `c` and `c` is not the separator, so the joined string has no `c`. */
  lemma {:induction false} JoinWithout(parts: seq<string>, sep: string, c: char)
    requires c !in sep
    requires forall i :: 0 <= i < |parts| ==> c !in parts[i]
    ensures c !in Join(parts, sep)
    decreases |parts|
  {
    if |parts| > 1 {
      JoinWithout(parts[1..], sep, c);
    }
  }

  /** `s` with every occurrence of `c` removed. */
  function Without(s: string, c: char): (r: string)
    ensures c !in r && |r| <= |s|
    decreases |s|
  {
    if |s| == 0 then "" else (if s[0] == c then "" else [s[0]]) + Without(s[1..], c)
  }

  /** Joining the pieces with nothing in between drops the separators. */
  lemma {:induction false} ConcatSplit(s: string, c: char)
    ensures Join(Split(s, c), "") == Without(s, c)
    decreases |s|
  {
    if |s| > 0 {
      ConcatSplit(s[1..], c);
      var rest := Split(s[1..], c);
      if s[0] == c {
        JoinCons("", rest, "");
      } else {
        JoinPrependChar(s[0], rest, "");
      }
    }
  }

  lemma {:induction false} WithoutAppend(a: string, b: string, c: char)
    ensures Without(a + b, c) == Without(a, c) + Without(b, c)
    decreases |a|
  {
    if |a| == 0 {
      assert a + b == b;
    } else {
      var h := if a[0] == c then "" else [a[0]];
      assert (a + b)[0] == a[0];
      assert (a + b)[1..] == a[1..] + b;
      assert Without(a + b, c) == h + Without(a[1..] + b, c);
      WithoutAppend(a[1..], b, c);
      assert Without(a, c) == h + Without(a[1..], c);
    }
  }

  lemma {:induction false} WithoutAbsent(s: string, c: char)
    requires c !in s
    ensures Without(s, c) == s
    decreases |s|
  {
    if |s| > 0 {
      WithoutAbsent(s[1..], c);
      assert s == [s[0]] + s[1..];
    }
  }

  // ---------------------------------------------------------------------------
  // Searching, prefixes and suffixes
  // ---------------------------------------------------------------------------

  /** strings.IndexByte: the first index of `c`, or -1. */
  function IndexOf(s: string, c: char): (i: int)
    ensures -1 <= i < |s|
    ensures i >= 0 ==> s[i] == c && c !in s[..i]
    ensures i < 0 ==> c !in s
    decreases |s|
  {
    if |s| == 0 then -1
    else if s[0] == c then 0
    else
      var j := IndexOf(s[1..], c);
      if j < 0 then -1
      else
        assert s[..j + 1] == [s[0]] + s[1..][..j];
        j + 1
  }

  /** Searching a concatenation: a hit in the first part wins; otherwise the hit,
      if any, is in the second part, shifted by the first part's length. */
  lemma {:induction false} IndexOfAppend(a: string, b: string, c: char)
    ensures IndexOf(a, c) >= 0 ==> IndexOf(a + b, c) == IndexOf(a, c)
    ensures IndexOf(a, c) < 0 ==>
      IndexOf(a + b, c) == (if IndexOf(b, c) < 0 then -1 else |a| + IndexOf(b, c))
    decreases |a|
  {
    if |a| == 0 {
      assert a + b == b;
    } else {
      assert (a + b)[1..] == a[1..] + b;
      IndexOfAppend(a[1..], b, c);
    }
  }

  /** strings.LastIndexByte: the last index of `c`, or -1. */
  function LastIndexOf(s: string, c: char): (i: int)
    ensures -1 <= i < |s|
    ensures i >= 0 ==> s[i] == c
    ensures forall k :: i < k < |s| ==> s[k] != c
    decreases |s|
  {
    if |s| == 0 then -1
    else if s[|s| - 1] == c then |s| - 1
    else LastIndexOf(s[..|s| - 1], c)
  }

  lemma ConcatAssoc(a: string, b: string, c: string)
    ensures a + b + c == a + (b + c)
  {
  }

  lemma SliceAppend(a: string, b: string, i: nat)
    requires i <= |a|
    ensures (a + b)[..i] == a[..i] && (a + b)[i..] == a[i..] + b
  {
  }

  /** An occurrence with none after it is the last one. */
  lemma LastIndexOfAt(s: string, c: char, j: int)
    requires 0 <= j < |s| && s[j] == c && c !in s[j + 1..]
    ensures LastIndexOf(s, c) == j
  {
  }

  /** The last piece of a split is the text after the last separator (all of
      `s` when there is none); the pieces before it are those of the text before
      that separator. */
  lemma SplitLast(s: string, c: char)
    ensures var k := LastIndexOf(s, c); var pieces := Split(s, c);
      pieces[|pieces| - 1] == s[k + 1..]
      && pieces[..|pieces| - 1] == (if k < 0 then [] else Split(s[..k], c))
  {
    var k := LastIndexOf(s, c);
    AfterLast(s, c, k);
    if k < 0 {
      assert s[k + 1..] == s;
      SplitNoSep(s, c);
    } else {
      SplitAt(s, c, k);
    }
  }

  /** Nothing after the last occurrence is an occurrence. */
  lemma AfterLast(s: string, c: char, k: int)
    requires k == LastIndexOf(s, c)
    ensures c !in s[k + 1..]
  {
    var b := s[k + 1..];
    forall i | 0 <= i < |b|
      ensures b[i] != c
    {
      assert b[i] == s[k + 1 + i];
    }
  }

  lemma Around(s: string, k: int)
    requires 0 <= k < |s|
    ensures s == s[..k] + [s[k]] + s[k + 1..]
  {
  }

  /** Splitting at a separator after which none follows. */
  lemma SplitAt(s: string, c: char, k: int)
    requires 0 <= k < |s| && s[k] == c && c !in s[k + 1..]
    ensures var pieces := Split(s, c);
      pieces[|pieces| - 1] == s[k + 1..] && pieces[..|pieces| - 1] == Split(s[..k], c)
  {
    Around(s, k);
    SplitLastOf(s[..k], s[k + 1..], c);
  }

  lemma SplitLastOf(a: string, b: string, c: char)
    requires c !in b
    ensures var pieces := Split(a + [c] + b, c);
      pieces[|pieces| - 1] == b && pieces[..|pieces| - 1] == Split(a, c)
  {
    SplitAround(a, b, c);
    SplitNoSep(b, c);
    var pa := Split(a, c);
    assert Split(a + [c] + b, c) == pa + [b];
    assert (pa + [b])[..|pa|] == pa;
  }

  predicate HasSuffix(s: string, suffix: string)
  {
    |suffix| <= |s| && s[|s| - |suffix|..] == suffix
  }

  /** strings.TrimPrefix: drops `prefix` once when `s` starts with it. */
  function TrimPrefix(s: string, prefix: string): (r: string)
    ensures prefix <= s ==> prefix + r == s
    ensures !(prefix <= s) ==> r == s
  {
    if prefix <= s then s[|prefix|..] else s
  }

  /** strings.TrimSuffix: drops `suffix` once when `s` ends with it. */
  function TrimSuffix(s: string, suffix: string): (r: string)
    ensures HasSuffix(s, suffix) ==> r + suffix == s
    ensures !HasSuffix(s, suffix) ==> r == s
  {
    if HasSuffix(s, suffix) then s[..|s| - |suffix|] else s
  }

  /** The number of occurrences of `c` in `s`. */
  function Count(s: string, c: char): nat
    decreases |s|
  {
    if |s| == 0 then 0 else (if s[0] == c then 1 else 0) + Count(s[1..], c)
  }

  lemma {:induction false} CountPositive(s: string, c: char)
    requires Count(s, c) > 0
    ensures c in s
    decreases |s|
  {
    if s[0] != c {
      CountPositive(s[1..], c);
    }
  }

  // ---------------------------------------------------------------------------
  // Decimal formatting and strconv.ParseInt(s, 10, 64)
  // ---------------------------------------------------------------------------

  const Int64Max: int := 0x7FFF_FFFF_FFFF_FFFF
  const Int64Min: int := -0x8000_0000_0000_0000

  predicate IsDigit(c: char)
  {
    '0' <= c <= '9'
  }

  predicate AllDigits(s: string)
  {
    forall i :: 0 <= i < |s| ==> IsDigit(s[i])
  }

  function DigitValue(c: char): nat
    requires IsDigit(c)
  {
    (c as int) - ('0' as int)
  }

  function DigitChar(d: nat): (c: char)
    requires d < 10
    ensures IsDigit(c) && DigitValue(c) == d
  {
    (('0' as int) + d) as char
  }

  /** fmt's `%d` of a non-negative integer: decimal, no sign, no padding. */
  function Decimal(n: nat): (r: string)
    ensures |r| >= 1 && AllDigits(r)
    decreases n
  {
    if n < 10 then [DigitChar(n)] else Decimal(n / 10) + [DigitChar(n % 10)]
  }

  /** The value of a run of decimal digits. */
  function DigitsValue(s: string): nat
    requires AllDigits(s)
    decreases |s|
  {
    if |s| == 0 then 0 else DigitsValue(s[..|s| - 1]) * 10 + DigitValue(s[|s| - 1])
  }

  /** Reading back the decimal form of `n` gives `n`. */
  lemma {:induction false} DecimalValue(n: nat)
    ensures DigitsValue(Decimal(n)) == n
    decreases n
  {
    if n >= 10 {
      DecimalValue(n / 10);
      var s := Decimal(n);
      assert s[..|s| - 1] == Decimal(n / 10);
    }
  }

  /** strconv.ParseInt(s, 10, 64): an optional '+' or '-', then one or more decimal
      digits (no underscores in base 10), with the value inside the int64 range;
      anything else (empty text, a stray character, overflow) is an error. */
  function ParseInt64(s: string): (r: Option<int>)
    ensures r.Some? ==> Int64Min <= r.value <= Int64Max
    ensures r.Some? && '-' !in s ==> r.value >= 0
    ensures r.Some? ==> |s| >= 1 && (IsDigit(s[0]) || s[0] == '+' || s[0] == '-')
  {
    if |s| == 0 then None
    else
      var signed := s[0] == '+' || s[0] == '-';
      var digits := if signed then s[1..] else s;
      if |digits| == 0 || !AllDigits(digits) then None
      else
        var magnitude: int := DigitsValue(digits);
        var value: int := if s[0] == '-' then -magnitude else magnitude;
        if Int64Min <= value <= Int64Max then Some(value) else None
  }

  /** Parsing the decimal form of any int64-sized natural gives it back. */
  lemma ParseDecimal(n: nat)
    requires n <= Int64Max
    ensures ParseInt64(Decimal(n)) == Some(n)
  {
    DecimalValue(n);
    assert IsDigit(Decimal(n)[0]);
  }
}
