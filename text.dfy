/** Strings as JavaScript sees them in this engine: decimal numerals, splitting
    and joining on a separator, code-unit ordering and substring search. */
module Text {

  predicate IsDigit(c: char) { '0' <= c <= '9' }

  function DigitValue(c: char): (d: nat)
    requires IsDigit(c)
    ensures d < 10
  {
    (c as int) - ('0' as int)
  }

  function DigitChar(d: nat): (c: char)
    requires d < 10
    ensures IsDigit(c) && DigitValue(c) == d
  {
    (('0' as int) + d) as char
  }

  predicate AllDigits(s: string) { forall i :: 0 <= i < |s| ==> IsDigit(s[i]) }

  /** A decimal numeral as Number::toString writes a non-negative integer:
      at least one digit and no superfluous leading zero. */
  predicate Canonical(s: string) { |s| > 0 && AllDigits(s) && (s[0] == '0' ==> |s| == 1) }

  function Pow10(k: nat): (p: nat)
    ensures p >= 1
  {
    if k == 0 then 1 else 10 * Pow10(k - 1)
  }

  /** The decimal text of a non-negative integer. */
  function NatToString(n: nat): (s: string)
    ensures Canonical(s)
    ensures s[0] == '0' <==> n == 0
  {
    if n < 10 then [DigitChar(n)] else NatToString(n / 10) + [DigitChar(n % 10)]
  }

  /** The value of a string of decimal digits (leading zeros allowed). */
  function ParseDigits(s: string): nat
    requires AllDigits(s)
  {
    if |s| == 0 then 0 else ParseDigits(s[..|s| - 1]) * 10 + DigitValue(s[|s| - 1])
  }

  /** Reading back what NatToString writes gives the number again. */
  lemma {:induction false} ParsePrint(n: nat)
    ensures ParseDigits(NatToString(n)) == n
  {
    if n >= 10 {
      var s := NatToString(n);
      assert s[..|s| - 1] == NatToString(n / 10);
      ParsePrint(n / 10);
    }
  }

  /** A numeral of k digits that does not start with zero is at least 10^(k-1). */
  lemma {:induction false} ParseLowerBound(s: string)
    requires |s| > 0 && AllDigits(s) && s[0] != '0'
    ensures ParseDigits(s) >= Pow10(|s| - 1)
  {
    if |s| > 1 {
      var p := s[..|s| - 1];
      assert p[0] == s[0];
      ParseLowerBound(p);
    }
  }

  /** Writing back the value of a canonical numeral gives the numeral again. */
  lemma {:induction false} PrintParse(s: string)
    requires Canonical(s)
    ensures NatToString(ParseDigits(s)) == s
  {
    if |s| == 1 {
      assert s == [DigitChar(DigitValue(s[0]))];
    } else {
      var p := s[..|s| - 1];
      assert p[0] == s[0];
      assert Canonical(p);
      ParseLowerBound(p);
      var n := ParseDigits(s);
      assert n / 10 == ParseDigits(p) && n % 10 == DigitValue(s[|s| - 1]);
      PrintParse(p);
      assert s == p + [DigitChar(DigitValue(s[|s| - 1]))];
    }
  }

  /** `s.split(sep)`: the pieces between occurrences of sep, in order. */
  function Split(s: string, sep: char): (parts: seq<string>)
    ensures |parts| >= 1
  {
    if |s| == 0 then [""]
    else
      var rest := Split(s[1..], sep);
      if s[0] == sep then [""] + rest else [[s[0]] + rest[0]] + rest[1..]
  }

  /** `parts.join(sep)`. */
  function Join(parts: seq<string>, sep: char): string
    requires |parts| >= 1
  {
    if |parts| == 1 then parts[0] else parts[0] + [sep] + Join(parts[1..], sep)
  }

  /** Joining the pieces of a split restores the string. */
  lemma {:induction false} JoinSplit(s: string, sep: char)
    ensures Join(Split(s, sep), sep) == s
  {
    if |s| > 0 {
      var rest := Split(s[1..], sep);
      JoinSplit(s[1..], sep);
      if s[0] == sep {
        assert ([""] + rest)[1..] == rest;
      } else if |rest| > 1 {
        var parts := [[s[0]] + rest[0]] + rest[1..];
        assert parts[1..] == rest[1..];
        assert Join(rest, sep) == rest[0] + [sep] + Join(rest[1..], sep);
        assert s == [s[0]] + s[1..];
      }
    }
  }

  /** A prefix without the separator is glued onto the first piece of the rest. */
  lemma {:induction false} SplitConcat(w: string, t: string, sep: char)
    requires sep !in w
    ensures Split(w + t, sep) == [w + Split(t, sep)[0]] + Split(t, sep)[1..]
  {
    if |w| == 0 {
      var parts := Split(t, sep);
      assert w + t == t && w + parts[0] == parts[0];
      assert [parts[0]] + parts[1..] == parts;
    } else {
      assert (w + t)[1..] == w[1..] + t;
      assert (w + t)[0] == w[0];
      SplitConcat(w[1..], t, sep);
      assert [w[0]] + (w[1..] + Split(t, sep)[0]) == w + Split(t, sep)[0];
    }
  }

  /** Splitting a join of separator-free pieces gives the pieces back. */
  lemma {:induction false} SplitJoin(parts: seq<string>, sep: char)
    requires |parts| >= 1
    requires forall i :: 0 <= i < |parts| ==> sep !in parts[i]
    ensures Split(Join(parts, sep), sep) == parts
  {
    if |parts| == 1 {
      SplitConcat(parts[0], "", sep);
      assert parts[0] + "" == parts[0];
    } else {
      var tail := Join(parts[1..], sep);
      SplitJoin(parts[1..], sep);
      SplitConcat(parts[0], [sep] + tail, sep);
      assert Join(parts, sep) == parts[0] + ([sep] + tail);
      assert ([sep] + tail)[1..] == tail;
      var rest := Split([sep] + tail, sep);
      assert rest == [""] + parts[1..];
      assert rest[0] == "" && rest[1..] == parts[1..];
      assert parts[0] + rest[0] == parts[0];
      assert Split(Join(parts, sep), sep) == [parts[0]] + parts[1..];
      assert parts == [parts[0]] + parts[1..];
    }
  }

  /** The relational comparison of two strings: code unit by code unit, a
      proper prefix coming first. */
  predicate StrLess(a: string, b: string)
  {
    if |a| == 0 then |b| > 0
    else if |b| == 0 then false
    else if a[0] == b[0] then StrLess(a[1..], b[1..])
    else a[0] < b[0]
  }

  /** Two different strings are ordered one way and not the other; no string
      is below itself. */
  lemma {:induction false} StrLessTrichotomy(a: string, b: string)
    ensures !(StrLess(a, b) && StrLess(b, a))
    ensures a == b ==> !StrLess(a, b)
    ensures a != b ==> StrLess(a, b) || StrLess(b, a)
  {
    if |a| > 0 && |b| > 0 && a[0] == b[0] {
      StrLessTrichotomy(a[1..], b[1..]);
      assert a == [a[0]] + a[1..] && b == [b[0]] + b[1..];
    }
  }

  /** String order is transitive, so with the lemma above it is a strict
      total order. */
  lemma {:induction false} StrLessTransitive(a: string, b: string, c: string)
    requires StrLess(a, b) && StrLess(b, c)
    ensures StrLess(a, c)
  {
    if |a| > 0 && a[0] == b[0] && b[0] == c[0] {
      StrLessTransitive(a[1..], b[1..], c[1..]);
    }
  }

  predicate IsPrefix(p: string, s: string) { |p| <= |s| && s[..|p|] == p }

  /** needle occurs in hay starting at position i. */
  predicate OccursAt(hay: string, needle: string, i: nat)
  {
    i + |needle| <= |hay| && hay[i..i + |needle|] == needle
  }

  /** needle occurs somewhere in hay. */
  ghost predicate Occurs(hay: string, needle: string)
  {
    exists i: nat :: OccursAt(hay, needle, i)
  }

  /** `hay.indexOf(needle) !== -1`: needle occurs somewhere in hay. */
  predicate Contains(hay: string, needle: string)
  {
    IsPrefix(needle, hay) || (|hay| > 0 && Contains(hay[1..], needle))
  }

  /** Contains finds exactly the positions where needle occurs. */
  lemma ContainsMeaning(hay: string, needle: string)
    ensures Contains(hay, needle) <==> Occurs(hay, needle)
  {
    if Contains(hay, needle) {
      ContainsWitness(hay, needle);
    }
    if Occurs(hay, needle) {
      var i: nat :| OccursAt(hay, needle, i);
      ContainsAt(hay, needle, i);
    }
  }

  /** What Contains finds is an occurrence. */
  lemma {:induction false} ContainsWitness(hay: string, needle: string)
    requires Contains(hay, needle)
    ensures Occurs(hay, needle)
  {
    if IsPrefix(needle, hay) {
      assert OccursAt(hay, needle, 0);
    } else {
      ContainsWitness(hay[1..], needle);
      var i: nat :| OccursAt(hay[1..], needle, i);
      SliceOfTail(hay, i, |needle|);
      assert OccursAt(hay, needle, i + 1);
    }
  }

  /** Every occurrence is found by Contains. */
  lemma {:induction false} ContainsAt(hay: string, needle: string, i: nat)
    requires OccursAt(hay, needle, i)
    ensures Contains(hay, needle)
    decreases i
  {
    if i == 0 {
      assert IsPrefix(needle, hay);
    } else {
      SliceOfTail(hay, i - 1, |needle|);
      assert OccursAt(hay[1..], needle, i - 1);
      ContainsAt(hay[1..], needle, i - 1);
    }
  }

  lemma SliceOfTail(hay: string, i: nat, n: nat)
    requires i + n < |hay|
    ensures hay[1..][i..i + n] == hay[i + 1..i + 1 + n]
  {
    var left, right := hay[1..][i..i + n], hay[i + 1..i + 1 + n];
    assert |left| == |right|;
    forall k | 0 <= k < n
      ensures left[k] == right[k]
    {
    }
  }
}
