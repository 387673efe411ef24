/** The string operations of the source's standard library that the codecs use. */
module Text {
  import opened ConfigTypes

  /** Unicode White_Space, as `str::trim` uses it. */
  predicate IsSpace(c: char) {
    || '\t' <= c <= '\r' || c == ' '
    || c == 0x85 as char || c == 0xA0 as char || c == 0x1680 as char
    || 0x2000 as char <= c <= 0x200A as char
    || c == 0x2028 as char || c == 0x2029 as char || c == 0x202F as char || c == 0x205F as char || c == 0x3000 as char
  }

  function TrimStart(s: string): string {
    if s != "" && IsSpace(s[0]) then TrimStart(s[1..]) else s
  }

  function TrimEnd(s: string): string {
    if s != "" && IsSpace(s[|s| - 1]) then TrimEnd(s[..|s| - 1]) else s
  }

  function Trim(s: string): string {
    TrimEnd(TrimStart(s))
  }

  /** Nothing to trim at either end. */
  predicate Trimmed(s: string) {
    s == "" || (!IsSpace(s[0]) && !IsSpace(s[|s| - 1]))
  }

  /** `find`: the first position of `c`. */
  function Find(s: string, c: char): (r: Option<nat>)
    ensures r.None? <==> c !in s
    ensures r.Some? ==> r.value < |s| && s[r.value] == c && c !in s[..r.value]
  {
    if s == "" then None
    else if s[0] == c then Some(0)
    else
      match Find(s[1..], c)
      case None => assert s == [s[0]] + s[1..]; None
      case Some(i) => assert s[..i + 1] == [s[0]] + s[1..][..i]; Some(i + 1)
  }

  /** The first position is determined by what precedes it. */
  lemma FindAt(s: string, c: char, i: nat)
    requires i < |s| && s[i] == c && c !in s[..i]
    ensures Find(s, c) == Some(i)
  {
    var j := Find(s, c).value;
    assert forall k :: 0 <= k < i ==> s[..i][k] == s[k];
    assert forall k :: 0 <= k < j ==> s[..j][k] == s[k];
  }

  // ---- Trimming ----

  lemma {:induction false} TrimStartIs(s: string)
    ensures TrimStart(s) == "" || !IsSpace(TrimStart(s)[0])
    ensures |TrimStart(s)| <= |s| && TrimStart(s) == s[|s| - |TrimStart(s)|..]
  {
    if s != "" && IsSpace(s[0]) {
      TrimStartIs(s[1..]);
    }
  }

  lemma {:induction false} TrimEndIs(s: string)
    ensures TrimEnd(s) == "" || !IsSpace(TrimEnd(s)[|TrimEnd(s)| - 1])
    ensures |TrimEnd(s)| <= |s| && TrimEnd(s) == s[..|TrimEnd(s)|]
  {
    if s != "" && IsSpace(s[|s| - 1]) {
      TrimEndIs(s[..|s| - 1]);
    }
  }

  /** Trimming yields something trimmed, a stretch of the input, and changes only what is not trimmed. */
  lemma TrimIs(s: string)
    ensures Trimmed(Trim(s)) && |Trim(s)| <= |s|
    ensures forall c :: c in Trim(s) ==> c in s
    ensures Trim(s) == s <==> Trimmed(s)
  {
    TrimStartIs(s);
    TrimEndIs(TrimStart(s));
  }

  lemma TrimLeadingSpace(c: char, s: string)
    requires IsSpace(c)
    ensures Trim([c] + s) == Trim(s)
  {
    assert ([c] + s)[1..] == s;
  }

  lemma {:induction false} TrimTrailingSpace(s: string, c: char)
    requires IsSpace(c)
    ensures Trim(s + [c]) == Trim(s)
    decreases |s|
  {
    if s == "" {
      assert s + [c] == [c] && [c][1..] == "";
    } else if IsSpace(s[0]) {
      assert (s + [c])[1..] == s[1..] + [c];
      TrimTrailingSpace(s[1..], c);
    } else {
      assert (s + [c])[..|s|] == s;
    }
  }

  /** The White_Space characters by number; tab, newline, carriage return and space among them. */
  lemma SpacesAre(c: char)
    ensures IsSpace(c) <==>
              c as int in {0x09, 0x0A, 0x0B, 0x0C, 0x0D, 0x20, 0x85, 0xA0, 0x1680,
                           0x2000, 0x2001, 0x2002, 0x2003, 0x2004, 0x2005, 0x2006, 0x2007, 0x2008, 0x2009, 0x200A,
                           0x2028, 0x2029, 0x202F, 0x205F, 0x3000}
  {
  }

  lemma {:induction false} TrimStartUpTo(l: string, c: char, r: string)
    requires !IsSpace(c)
    ensures TrimStart(l + [c] + r) == TrimStart(l) + [c] + r
    decreases |l|
  {
    if l != "" {
      assert (l + [c] + r)[1..] == l[1..] + [c] + r;
      TrimStartUpTo(l[1..], c, r);
    }
  }

  lemma {:induction false} TrimEndDownTo(l: string, c: char, r: string)
    requires !IsSpace(c)
    ensures TrimEnd(l + [c] + r) == l + [c] + TrimEnd(r)
    decreases |r|
  {
    var s := l + [c] + r;
    if r == "" {
      assert s[|s| - 1] == c;
    } else {
      assert s[..|s| - 1] == l + [c] + r[..|r| - 1] && s[|s| - 1] == r[|r| - 1];
      TrimEndDownTo(l, c, r[..|r| - 1]);
    }
  }

  /** Trimming reaches no further in from either end than a character that is not space. */
  lemma TrimAround(l: string, c: char, r: string)
    requires !IsSpace(c)
    ensures Trim(l + [c] + r) == TrimStart(l) + [c] + TrimEnd(r)
  {
    TrimStartUpTo(l, c, r);
    TrimEndDownTo(TrimStart(l), c, r);
  }

  lemma {:induction false} TrimAfterStart(s: string)
    ensures Trim(TrimStart(s)) == Trim(s)
  {
    if s != "" && IsSpace(s[0]) {
      TrimAfterStart(s[1..]);
    }
  }

  lemma {:induction false} TrimAfterEnd(s: string)
    ensures Trim(TrimEnd(s)) == Trim(s)
  {
    if s != "" && IsSpace(s[|s| - 1]) {
      var front, c := s[..|s| - 1], s[|s| - 1];
      assert s == front + [c];
      TrimAfterEnd(front);
      TrimTrailingSpace(front, c);
    }
  }

  // ---- Decimal numbers ----

  predicate IsDigit(c: char) {
    '0' <= c <= '9'
  }

  /** The value of a string of digits; the empty string counts as zero here. */
  function DigitsValue(s: string): Option<nat> {
    if s == "" then Some(0)
    else
      var c := s[|s| - 1];
      match DigitsValue(s[..|s| - 1])
      case Some(v) => if IsDigit(c) then Some(10 * v + (c as int - '0' as int)) else None
      case None => None
  }

  /**
   `str::parse::<u32>`: an optional plus sign and at least one digit, with a value below 2^32.
   (The source checks for overflow digit by digit, which is the same, as the value never falls.)
   */
  function ParseU32(s: string): Option<nat> {
    var digits := if s != "" && s[0] == '+' then s[1..] else s;
    if digits == "" then None
    else
      match DigitsValue(digits)
      case Some(v) => if v < U32_LIMIT then Some(v) else None
      case None => None
  }

  function Digit(d: nat): char
    requires d < 10
  {
    ('0' as int + d) as char
  }

  /** `to_string` of an unsigned number. */
  function PrintNat(n: nat): (s: string)
    ensures s != "" && forall c :: c in s ==> IsDigit(c)
  {
    if n < 10 then [Digit(n)] else PrintNat(n / 10) + [Digit(n % 10)]
  }

  /** The decimal form: one digit below ten, and otherwise the tens followed by the ones. */
  lemma PrintNatIs(tens: nat, ones: nat)
    requires ones <= 9
    ensures PrintNat(10 * tens + ones) == (if tens == 0 then "" else PrintNat(tens)) + ["0123456789"[ones]]
  {
  }

  lemma {:induction false} DigitsValuePrint(n: nat)
    ensures DigitsValue(PrintNat(n)) == Some(n)
  {
    var s := PrintNat(n);
    if n >= 10 {
      DigitsValuePrint(n / 10);
      assert s[..|s| - 1] == PrintNat(n / 10);
    } else {
      assert s[..|s| - 1] == "";
    }
  }

  /** Printing and parsing are inverse on the 32-bit numbers. */
  lemma ParsePrint(n: nat)
    requires n < U32_LIMIT
    ensures ParseU32(PrintNat(n)) == Some(n)
  {
    DigitsValuePrint(n);
    assert PrintNat(n)[0] in PrintNat(n);
  }

  function Zeros(k: nat): string {
    seq(k, _ => '0')
  }

  lemma {:induction false} ZerosValue(k: nat)
    ensures DigitsValue(Zeros(k)) == Some(0)
  {
    if k > 0 {
      assert Zeros(k)[..k - 1] == Zeros(k - 1);
      ZerosValue(k - 1);
    }
  }

  lemma {:induction false} PaddedValue(k: nat, n: nat)
    ensures DigitsValue(Zeros(k) + PrintNat(n)) == Some(n)
    decreases n
  {
    var s := Zeros(k) + PrintNat(n);
    if n < 10 {
      assert s[..|s| - 1] == Zeros(k) && s[|s| - 1] == Digit(n);
      ZerosValue(k);
    } else {
      assert s[..|s| - 1] == Zeros(k) + PrintNat(n / 10) && s[|s| - 1] == Digit(n % 10);
      PaddedValue(k, n / 10);
    }
  }

  /** A string of digits is the decimal form of its value, perhaps after some zeros. */
  lemma {:induction false} DigitsArePadded(s: string) returns (k: nat)
    requires s != "" && DigitsValue(s).Some?
    ensures s == Zeros(k) + PrintNat(DigitsValue(s).value)
    decreases |s|
  {
    var front, c := s[..|s| - 1], s[|s| - 1];
    assert s == front + [c];
    k := 0;
    if front != "" {
      k := DigitsArePadded(front);
      var v := DigitsValue(front).value;
      if v == 0 {
        assert front == Zeros(k + 1);
        k := k + 1;
      } else {
        assert PrintNat(DigitsValue(s).value) == PrintNat(v) + [c];
      }
    }
  }

  ghost predicate IsPadded(s: string, n: nat) {
    exists k: nat :: s == Zeros(k) + PrintNat(n)
  }

  /** What parses as a 32-bit number: its decimal form, perhaps after a plus sign and some zeros. */
  lemma ParseU32Exactly(s: string, n: nat)
    ensures ParseU32(s) == Some(n) <==>
              n < 4294967296 && (IsPadded(s, n) || (s != "" && s[0] == '+' && IsPadded(s[1..], n)))
  {
    var digits := if s != "" && s[0] == '+' then s[1..] else s;
    if ParseU32(s) == Some(n) {
      var k := DigitsArePadded(digits);
    }
    if s != "" && s[0] == '+' && IsPadded(s[1..], n) {
      var k: nat :| s[1..] == Zeros(k) + PrintNat(n);
      PaddedValue(k, n);
    }
    if IsPadded(s, n) {
      var k: nat :| s == Zeros(k) + PrintNat(n);
      PaddedValue(k, n);
      assert s[0] in s && forall c :: c in s ==> c in Zeros(k) || c in PrintNat(n);
    }
  }

  lemma PrintIsTrimmed(n: nat)
    ensures Trim(PrintNat(n)) == PrintNat(n)
  {
    var s := PrintNat(n);
    assert s[0] in s && s[|s| - 1] in s;
    TrimIs(s);
  }
}
