/** The fixed character-class expressions of the rule table, written as
    checks on characters: alpha, alphaDash, alphaNumeric and the IPv4
    expression of the ip rule (lib/validators.js). */
module Charset {
  import opened Text

  predicate IsAsciiLetter(c: char) { 'a' <= c <= 'z' || 'A' <= c <= 'Z' }

  /** `/^[a-z]+$/i`: one or more ASCII letters of either case. */
  predicate IsAlpha(s: string)
  {
    |s| > 0 && forall i :: 0 <= i < |s| ==> IsAsciiLetter(s[i])
  }

  /** `/^[\w\-]+$/`: one or more letters, digits, underscores or dashes. */
  predicate IsAlphaDash(s: string)
  {
    |s| > 0 && forall i :: 0 <= i < |s| ==> IsAsciiLetter(s[i]) || IsDigit(s[i]) || s[i] == '_' || s[i] == '-'
  }

  /** `/^[a-z0-9]+$/i`: one or more ASCII letters or digits. */
  predicate IsAlphaNumeric(s: string)
  {
    |s| > 0 && forall i :: 0 <= i < |s| ==> IsAsciiLetter(s[i]) || IsDigit(s[i])
  }

  /** Each of the three classes admits everything the narrower one does. */
  lemma CharsetsNest(s: string)
    ensures IsAlpha(s) ==> IsAlphaNumeric(s)
    ensures IsAlphaNumeric(s) ==> IsAlphaDash(s)
  {
  }

  /** The octet group of the ip expression, alternative by alternative:
      a digit, a two-digit number not starting with 0, 1 followed by two
      digits, 2 followed by 0-4 and a digit, or 25 followed by 0-5. */
  predicate IsOctet(p: string)
  {
    (|p| == 1 && IsDigit(p[0]))
    || (|p| == 2 && '1' <= p[0] <= '9' && IsDigit(p[1]))
    || (|p| == 3 && p[0] == '1' && IsDigit(p[1]) && IsDigit(p[2]))
    || (|p| == 3 && p[0] == '2' && '0' <= p[1] <= '4' && IsDigit(p[2]))
    || (|p| == 3 && p[0] == '2' && p[1] == '5' && '0' <= p[2] <= '5')
  }

  /** The ip expression: four octets separated by dots, nothing else. */
  predicate IsIPv4(s: string)
  {
    var parts := Split(s, '.');
    |parts| == 4 && forall i :: 0 <= i < 4 ==> IsOctet(parts[i])
  }

  /** The dotted-quad text of four numbers. */
  function Dotted(a: nat, b: nat, c: nat, d: nat): string
  {
    Join([NatToString(a), NatToString(b), NatToString(c), NatToString(d)], '.')
  }

  lemma ParseThree(p: string)
    requires |p| == 3 && AllDigits(p)
    ensures ParseDigits(p) == 100 * DigitValue(p[0]) + 10 * DigitValue(p[1]) + DigitValue(p[2])
  {
    var p2, p1 := p[..2], p[..1];
    assert p2[..1] == p1 && p1[..0] == [];
    assert p2[1] == p[1] && p1[0] == p[0];
    assert ParseDigits(p1) == DigitValue(p[0]);
    assert ParseDigits(p2) == 10 * DigitValue(p[0]) + DigitValue(p[1]);
  }

  lemma ParseTwo(p: string)
    requires |p| == 2 && AllDigits(p)
    ensures ParseDigits(p) == 10 * DigitValue(p[0]) + DigitValue(p[1])
  {
    var p1 := p[..1];
    assert p1[..0] == [] && p1[0] == p[0];
    assert ParseDigits(p1) == DigitValue(p[0]);
  }

  /** The octet alternatives are exactly the decimal numerals of 0 to 255
      written without leading zeros. */
  lemma OctetMeaning(p: string)
    ensures IsOctet(p) <==> Canonical(p) && ParseDigits(p) <= 255
  {
    if |p| == 2 && AllDigits(p) {
      ParseTwo(p);
    } else if |p| == 3 && AllDigits(p) {
      ParseThree(p);
    } else if |p| > 3 && Canonical(p) {
      ParseLowerBound(p);
      assert Pow10(3) == 1000;
      assert Pow10(|p| - 1) >= Pow10(3) by {
        Pow10Grows(3, |p| - 1);
      }
    } else if |p| == 1 && AllDigits(p) {
      assert p[..0] == [];
    }
  }

  lemma {:induction false} Pow10Grows(j: nat, k: nat)
    requires j <= k
    ensures Pow10(j) <= Pow10(k)
  {
    if j < k {
      Pow10Grows(j, k - 1);
    }
  }

  /** The text of n is an octet exactly when n is at most 255. */
  lemma OctetOfNumber(n: nat)
    ensures IsOctet(NatToString(n)) <==> n <= 255
  {
    OctetMeaning(NatToString(n));
    ParsePrint(n);
  }

  /** The dotted quad of four numbers passes the ip check exactly when each
      number is at most 255. */
  lemma DottedIsIPv4(a: nat, b: nat, c: nat, d: nat)
    ensures IsIPv4(Dotted(a, b, c, d)) <==> a <= 255 && b <= 255 && c <= 255 && d <= 255
  {
    var parts := [NatToString(a), NatToString(b), NatToString(c), NatToString(d)];
    forall i | 0 <= i < 4
      ensures '.' !in parts[i]
    {
      if '.' in parts[i] {
        var k :| 0 <= k < |parts[i]| && parts[i][k] == '.';
      }
    }
    SplitJoin(parts, '.');
    var split := Split(Dotted(a, b, c, d), '.');
    assert split == parts;
    OctetOfNumber(a);
    OctetOfNumber(b);
    OctetOfNumber(c);
    OctetOfNumber(d);
    if IsIPv4(Dotted(a, b, c, d)) {
      assert IsOctet(split[0]) && IsOctet(split[1]) && IsOctet(split[2]) && IsOctet(split[3]);
    }
  }

  /** Whatever passes the ip check is the dotted quad of four numbers up to 255. */
  lemma IPv4IsDotted(s: string) returns (a: nat, b: nat, c: nat, d: nat)
    requires IsIPv4(s)
    ensures a <= 255 && b <= 255 && c <= 255 && d <= 255
    ensures s == Dotted(a, b, c, d)
  {
    var parts := Split(s, '.');
    forall i | 0 <= i < 4
      ensures Canonical(parts[i]) && ParseDigits(parts[i]) <= 255
      ensures NatToString(ParseDigits(parts[i])) == parts[i]
    {
      OctetMeaning(parts[i]);
      PrintParse(parts[i]);
    }
    a, b, c, d := ParseDigits(parts[0]), ParseDigits(parts[1]), ParseDigits(parts[2]), ParseDigits(parts[3]);
    JoinSplit(s, '.');
    assert parts == [NatToString(a), NatToString(b), NatToString(c), NatToString(d)];
  }
}
