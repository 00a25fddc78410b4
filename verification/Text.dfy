/** Strings as JavaScript sees them: decimal printing, digit runs, white space, trimming. */
module Text {

  function Digit(k: int): char
    requires 0 <= k < 10
  {
    ('0' as int + k) as char
  }

  predicate IsDigit(c: char) {
    '0' <= c <= '9'
  }

  predicate AllDigits(s: string) {
    forall i :: 0 <= i < |s| ==> IsDigit(s[i])
  }

  function PrintNat(n: nat): string {
    if n < 10 then [Digit(n)] else PrintNat(n / 10) + [Digit(n % 10)]
  }

  /** `String(n)` for an integer. */
  function Print(n: int): string {
    if n < 0 then "-" + PrintNat(-n) else PrintNat(n)
  }

  /** `s.padStart(2, '0')` */
  function PadStart2(s: string): string {
    if |s| == 0 then "00" else if |s| == 1 then "0" + s else s
  }

  function Pad2(n: int): string {
    PadStart2(Print(n))
  }

  /** `Number(s)` of a run of digits. */
  function NumberOf(s: string): nat
    requires AllDigits(s)
  {
    if s == "" then 0 else 10 * NumberOf(s[..|s| - 1]) + (s[|s| - 1] as int - '0' as int)
  }

  lemma {:induction false} NumberOfPrint(n: nat)
    ensures AllDigits(PrintNat(n)) && NumberOf(PrintNat(n)) == n
  {
    if n >= 10 {
      NumberOfPrint(n / 10);
      assert PrintNat(n)[..|PrintNat(n)| - 1] == PrintNat(n / 10);
    } else {
      assert PrintNat(n)[..0] == "";
    }
  }

  /** A run of digits without a superfluous leading zero prints back from its number. */
  lemma {:induction false} PrintOfNumber(s: string)
    requires AllDigits(s) && |s| >= 1 && (|s| == 1 || s[0] != '0')
    ensures PrintNat(NumberOf(s)) == s
    ensures |s| >= 2 ==> NumberOf(s) >= 10
  {
    var init, last := s[..|s| - 1], s[|s| - 1] as int - '0' as int;
    assert s == init + [s[|s| - 1]];
    if |s| == 1 {
      assert NumberOf(init) == 0;
    } else {
      PrintOfNumber(init);
      PositiveNumber(init);
      assert (10 * NumberOf(init) + last) / 10 == NumberOf(init);
    }
  }

  lemma {:induction false} PositiveNumber(s: string)
    requires AllDigits(s) && |s| >= 1 && s[0] != '0'
    ensures NumberOf(s) >= 1
  {
    if |s| > 1 {
      PositiveNumber(s[..|s| - 1]);
    }
  }

  lemma PrintLength(n: nat)
    ensures |PrintNat(n)| >= 1
    ensures |PrintNat(n)| == 1 <==> n < 10
    ensures |PrintNat(n)| == 4 <==> 1000 <= n <= 9999
    ensures |PrintNat(n)| < 4 <==> n < 1000
  {
    if n >= 10 {
      assert PrintNat(n) == PrintNat(n / 10) + [Digit(n % 10)];
      if n >= 100 {
        assert PrintNat(n / 10) == PrintNat(n / 10 / 10) + [Digit(n / 10 % 10)];
        if n >= 1000 {
          assert PrintNat(n / 100) == PrintNat(n / 100 / 10) + [Digit(n / 100 % 10)];
        }
      }
    }
  }

  /** A number below 100 prints, padded, as two digits that read back as the number. */
  lemma NumberOfPad2(n: nat)
    requires n < 100
    ensures |Pad2(n)| == 2 && AllDigits(Pad2(n)) && NumberOf(Pad2(n)) == n
  {
    NumberOfPrint(n);
    if n < 10 {
      var s := "0" + [Digit(n)];
      assert s[..1] == "0" && "0"[..0] == "";
      assert Pad2(n) == s;
    } else {
      assert PrintNat(n) == PrintNat(n / 10) + [Digit(n % 10)];
    }
  }

  lemma Pad2OfNumber(s: string)
    requires AllDigits(s) && |s| == 2
    ensures Pad2(NumberOf(s)) == s && NumberOf(s) < 100
  {
    assert s[..1][..0] == "";
    assert s == [s[0], s[1]];
    assert NumberOf(s[..1]) == s[0] as int - '0' as int;
    if s[0] != '0' {
      PrintOfNumber(s);
    }
  }

  lemma FourDigits(s: string)
    requires AllDigits(s) && |s| == 4
    ensures NumberOf(s) <= 9999 && (NumberOf(s) < 1000 <==> s[0] == '0')
  {
    assert s[..3][..2][..1] == [s[0]] && [s[0]][..0] == "";
    assert NumberOf([s[0]]) == s[0] as int - '0' as int;
    assert s[..3][..2][..1] == s[..3][..2][..|s[..3][..2]| - 1];
    assert NumberOf(s[..3][..2]) == 10 * NumberOf([s[0]]) + (s[1] as int - '0' as int);
    assert NumberOf(s[..3]) == 10 * NumberOf(s[..3][..2]) + (s[2] as int - '0' as int);
  }

  /** White space of ECMA-262 (sections 12.2 and 12.3): what `trim` removes and `\s` matches. */
  predicate IsSpace(c: char) {
    var u := c as int;
    9 <= u <= 13 || u == 32 || u == 0xA0 || u == 0x1680 || 0x2000 <= u <= 0x200A
    || u == 0x2028 || u == 0x2029 || u == 0x202F || u == 0x205F || u == 0x3000 || u == 0xFEFF
  }

  /** The same, character by character. */
  lemma SpacesAre(c: char)
    ensures IsSpace(c) <==>
            c as int in {0x9, 0xA, 0xB, 0xC, 0xD, 0x20, 0xA0, 0x1680, 0x2000, 0x2001, 0x2002, 0x2003, 0x2004, 0x2005,
                         0x2006, 0x2007, 0x2008, 0x2009, 0x200A, 0x2028, 0x2029, 0x202F, 0x205F, 0x3000, 0xFEFF}
  {
  }

  predicate AllSpaces(s: string) {
    forall i :: 0 <= i < |s| ==> IsSpace(s[i])
  }

  function TrimStart(s: string): string {
    if s != "" && IsSpace(s[0]) then TrimStart(s[1..]) else s
  }

  function TrimEnd(s: string): string {
    if s != "" && IsSpace(s[|s| - 1]) then TrimEnd(s[..|s| - 1]) else s
  }

  function Trim(s: string): string {
    TrimEnd(TrimStart(s))
  }

  lemma TrimKeeps(s: string)
    requires s != "" && !IsSpace(s[0]) && !IsSpace(s[|s| - 1])
    ensures Trim(s) == s
  {
  }

  lemma {:induction false} TrimStartSkips(a: string, s: string)
    requires AllSpaces(a)
    ensures TrimStart(a + s) == TrimStart(s)
  {
    if a == "" {
      assert a + s == s;
    } else {
      assert (a + s)[1..] == a[1..] + s;
      TrimStartSkips(a[1..], s);
    }
  }

  lemma {:induction false} TrimEndSkips(s: string, b: string)
    requires AllSpaces(b)
    ensures TrimEnd(s + b) == TrimEnd(s)
  {
    if b == "" {
      assert s + b == s;
    } else {
      var n := |b| - 1;
      assert (s + b)[..|s + b| - 1] == s + b[..n];
      TrimEndSkips(s, b[..n]);
    }
  }

  /** Neither end is white space. */
  predicate Trimmed(s: string) {
    s != "" && !IsSpace(s[0]) && !IsSpace(s[|s| - 1])
  }

  lemma TrimAround(a: string, p: string, b: string)
    requires AllSpaces(a) && AllSpaces(b) && Trimmed(p)
    ensures Trim(a + p + b) == p
  {
    hide IsSpace, AllSpaces;
    assert a + p + b == a + (p + b);
    TrimStartSkips(a, p + b);
    assert (p + b)[0] == p[0];
    TrimEndSkips(p, b);
  }

  /** Trimming takes white space off both ends, and no more. */
  lemma TrimParts(s: string) returns (a: string, b: string)
    ensures AllSpaces(a) && AllSpaces(b) && s == a + Trim(s) + b
    ensures Trim(s) == "" || Trimmed(Trim(s))
  {
    hide IsSpace;
    a := TrimStartParts(s);
    b := TrimEndParts(TrimStart(s));
    assert Trim(s) != "" ==> Trim(s)[0] == TrimStart(s)[0];
  }

  lemma {:induction false} TrimStartParts(s: string) returns (a: string)
    ensures AllSpaces(a) && s == a + TrimStart(s)
    ensures TrimStart(s) == "" || !IsSpace(TrimStart(s)[0])
  {
    hide IsSpace;
    a := "";
    if s != "" && IsSpace(s[0]) {
      var rest := TrimStartParts(s[1..]);
      a := [s[0]] + rest;
    }
  }

  lemma {:induction false} TrimEndParts(s: string) returns (b: string)
    ensures AllSpaces(b) && s == TrimEnd(s) + b
    ensures TrimEnd(s) == "" || !IsSpace(TrimEnd(s)[|TrimEnd(s)| - 1])
  {
    hide IsSpace;
    b := "";
    if s != "" && IsSpace(s[|s| - 1]) {
      var rest := TrimEndParts(s[..|s| - 1]);
      b := rest + [s[|s| - 1]];
    }
  }

  predicate IsLetter(c: char) {
    'a' <= c <= 'z' || 'A' <= c <= 'Z'
  }

  function LowerLetter(c: char): char {
    if 'A' <= c <= 'Z' then (c as int + 32) as char else c
  }

  function UpperLetter(c: char): char {
    if 'a' <= c <= 'z' then (c as int - 32) as char else c
  }
}
