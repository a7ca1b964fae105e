/** The text forms in which a single-file artifact carries its settings. */
module PayloadText {
  import opened Wrappers

  // Trimming

  /** White space as the trimming function of the Go library understands it. */
  predicate IsSpace(c: char) {
    || '\t' <= c <= '\r' || c == ' ' || c == '\U{85}' || c == '\U{A0}' || c == '\U{1680}'
    || '\U{2000}' <= c <= '\U{200A}' || c == '\U{2028}' || c == '\U{2029}'
    || c == '\U{202F}' || c == '\U{205F}' || c == '\U{3000}'
  }

  function TrimLeft(s: string): string {
    if s != [] && IsSpace(s[0]) then TrimLeft(s[1..]) else s
  }

  function TrimRight(s: string): string {
    if s != [] && IsSpace(s[|s| - 1]) then TrimRight(s[..|s| - 1]) else s
  }

  function Trim(s: string): string { TrimRight(TrimLeft(s)) }

  predicate Tight(s: string) {
    s == [] || (!IsSpace(s[0]) && !IsSpace(s[|s| - 1]))
  }

  lemma {:induction false} TrimLeftLine(s: string, c: char)
    requires IsSpace(c)
    ensures TrimLeft(s + [c]) == if TrimLeft(s) == [] then [] else TrimLeft(s) + [c]
  {
    if s == [] {
      assert [] + [c] == [c] && [c][1..] == [];
      assert TrimLeft([c]) == TrimLeft([]);
    } else {
      assert (s + [c])[1..] == s[1..] + [c];
      if IsSpace(s[0]) {
        TrimLeftLine(s[1..], c);
      }
    }
  }

  ghost predicate AllSpace(s: string) { forall c :: c in s ==> IsSpace(c) }

  /** Of the characters below 128 the blank and the five from tab to carriage return are white space. */
  lemma SpacesAre(c: char)
    requires c as int < 128
    ensures IsSpace(c) <==> c as int == 32 || 9 <= c as int <= 13
  {
  }

  lemma {:induction false} TrimLeftMeans(s: string)
    ensures |TrimLeft(s)| <= |s| && TrimLeft(s) == s[|s| - |TrimLeft(s)|..] && AllSpace(s[..|s| - |TrimLeft(s)|])
  {
    if s != [] && IsSpace(s[0]) {
      TrimLeftMeans(s[1..]);
      var n := |s| - |TrimLeft(s)|;
      assert s[..n] == [s[0]] + s[1..][..n - 1];
    }
  }

  lemma {:induction false} TrimRightMeans(s: string)
    ensures |TrimRight(s)| <= |s| && TrimRight(s) == s[..|TrimRight(s)|] && AllSpace(s[|TrimRight(s)|..])
  {
    if s != [] && IsSpace(s[|s| - 1]) {
      var t := s[..|s| - 1];
      TrimRightMeans(t);
      var n := |TrimRight(t)|;
      assert s[n..] == t[n..] + [s[|s| - 1]];
    }
  }

  /** Trimming takes away white space at both ends, and all of it. */
  lemma TrimMeans(s: string) returns (a: string, b: string)
    ensures s == a + Trim(s) + b && Tight(Trim(s))
    ensures forall c :: c in a || c in b ==> IsSpace(c)
  {
    var t := TrimLeft(s);
    TrimLeftMeans(s);
    TrimRightMeans(t);
    TrimLeftIsSuffix(s);
    TrimRightIsPrefix(t);
    a, b := s[..|s| - |t|], t[|Trim(s)|..];
  }

  /** White space at the end of a line makes no difference. */
  lemma TrimLine(s: string, c: char)
    requires IsSpace(c)
    ensures Trim(s + [c]) == Trim(s)
  {
    TrimLeftLine(s, c);
    var t := TrimLeft(s);
    assert (t + [c])[..|t|] == t;
  }

  lemma {:induction false} TrimRightIsPrefix(s: string)
    ensures TrimRight(s) <= s
    ensures TrimRight(s) == [] || !IsSpace(TrimRight(s)[|TrimRight(s)| - 1])
  {
    if s != [] && IsSpace(s[|s| - 1]) {
      TrimRightIsPrefix(s[..|s| - 1]);
    }
  }

  lemma {:induction false} TrimLeftIsSuffix(s: string)
    ensures |TrimLeft(s)| <= |s|
    ensures TrimLeft(s) == [] || !IsSpace(TrimLeft(s)[0])
  {
    if s != [] && IsSpace(s[0]) {
      TrimLeftIsSuffix(s[1..]);
    }
  }

  /** Exactly the strings without surrounding white space are left as they are. */
  lemma TrimFixes(s: string)
    ensures Trim(s) == s <==> Tight(s)
  {
    TrimLeftIsSuffix(s);
    TrimRightIsPrefix(TrimLeft(s));
    if Trim(s) == s && s != [] {
      assert TrimLeft(s)[0] == s[0];
    }
  }

  /** A line of plain text gives that text. */
  lemma PlainLine(s: string)
    requires s != [] && '!' <= s[0] <= '~' && '!' <= s[|s| - 1] <= '~'
    ensures Trim(s + "\n") == s
  {
    TrimLine(s, '\n');
    TrimFixes(s);
  }

  // Octal numbers

  function Digit(d: nat): (c: char)
    requires d < 8
    ensures '0' <= c <= '7' && c as int - '0' as int == d
  {
    (d + '0' as int) as char
  }

  function PrintOctal(n: nat): string {
    if n < 8 then [Digit(n)] else PrintOctal(n / 8) + [Digit(n % 8)]
  }

  predicate Octal(s: string) {
    s != [] && forall i :: 0 <= i < |s| ==> '0' <= s[i] <= '7'
  }

  function OctalValue(s: string): nat
    requires forall i :: 0 <= i < |s| ==> '0' <= s[i] <= '7'
  {
    if s == [] then 0 else 8 * OctalValue(s[..|s| - 1]) + (s[|s| - 1] as int - '0' as int)
  }

  const LIMIT: int := 0x8000_0000

  /** Base 8 into 32 bits: text that is no number gives 0, and what is out of range is clamped. */
  function ParseOctal(s: string): int {
    var negative := s != [] && s[0] == '-';
    var digits := if negative || (s != [] && s[0] == '+') then s[1..] else s;
    if !Octal(digits) then 0
    else if negative then -(if OctalValue(digits) > LIMIT then LIMIT else OctalValue(digits))
    else if OctalValue(digits) >= LIMIT then LIMIT - 1 else OctalValue(digits)
  }

  lemma {:induction false} OctalPrints(n: nat)
    ensures Octal(PrintOctal(n)) && OctalValue(PrintOctal(n)) == n
  {
    if n >= 8 {
      OctalPrints(n / 8);
      assert PrintOctal(n)[..|PrintOctal(n)| - 1] == PrintOctal(n / 8);
    } else {
      assert OctalValue([]) == 0;
    }
  }

  /** Printing and parsing a mode gives it back exactly when it fits into 31 bits. */
  lemma OctalRoundTrip(n: nat)
    ensures ParseOctal(PrintOctal(n)) == n <==> n < LIMIT
    ensures n >= LIMIT ==> ParseOctal(PrintOctal(n)) == LIMIT - 1
  {
    OctalPrints(n);
    var s := PrintOctal(n);
    assert '0' <= s[0] <= '7';
  }
}
