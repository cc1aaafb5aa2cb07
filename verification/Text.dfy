/**
 Byte strings as the C++ code handles them: searching, trimming, ASCII case folding and the
 number formats of `std::from_chars` and `std::to_string`.

 One byte is one Dafny `char`. A search that finds nothing returns the length of the string,
 which stands for `npos`.
 */
module Text {
  import opened Wrappers

  // ----- searching -----

  /** The first index of `c` at or after `from`. */
  function FindFrom(s: string, c: char, from: nat): (r: nat)
    requires from <= |s|
    ensures from <= r <= |s|
    ensures forall i :: from <= i < r ==> s[i] != c
    ensures r < |s| ==> s[r] == c
    decreases |s| - from
  {
    if from == |s| || s[from] == c then from else FindFrom(s, c, from + 1)
  }

  function Find(s: string, c: char): (r: nat)
    ensures r <= |s|
    ensures forall i :: 0 <= i < r ==> s[i] != c
    ensures r < |s| ==> s[r] == c
  {
    FindFrom(s, c, 0)
  }

  lemma FindSplits(before: string, c: char, after: string)
    requires c !in before
    ensures Find(before + [c] + after, c) == |before|
  {
    var s := before + [c] + after;
    assert s[|before|] == c;
    assert forall i :: 0 <= i < |before| ==> s[i] == before[i];
  }

  lemma FindNothing(s: string, c: char)
    requires c !in s
    ensures Find(s, c) == |s|
  {
  }

  predicate CrlfAt(s: string, i: int) {
    0 <= i && i + 1 < |s| && s[i] == '\r' && s[i + 1] == '\n'
  }

  function FindCrlfFrom(s: string, from: nat): (r: nat)
    requires from <= |s|
    ensures from <= r <= |s|
    ensures forall i :: from <= i < r ==> !CrlfAt(s, i)
    ensures r < |s| ==> CrlfAt(s, r)
    decreases |s| - from
  {
    if from == |s| || CrlfAt(s, from) then from else FindCrlfFrom(s, from + 1)
  }

  /** The first "\r\n" in `s`. */
  function FindCrlf(s: string): (r: nat)
    ensures r <= |s|
    ensures forall i :: 0 <= i < r ==> !CrlfAt(s, i)
    ensures r < |s| ==> CrlfAt(s, r)
  {
    FindCrlfFrom(s, 0)
  }

  predicate HasCrlf(s: string) {
    FindCrlf(s) < |s|
  }

  /** Bytes that arrive later do not move a line end that is already there. */
  lemma CrlfSurvivesAppend(s: string, more: string)
    requires HasCrlf(s)
    ensures HasCrlf(s + more) && FindCrlf(s + more) == FindCrlf(s)
  {
    var t := s + more;
    assert CrlfAt(t, FindCrlf(s));
    assert forall i :: 0 <= i < FindCrlf(s) ==> CrlfAt(t, i) == CrlfAt(s, i);
  }

  lemma LineEndsAtCrlf(line: string, rest: string)
    requires !HasCrlf(line)
    ensures HasCrlf(line + "\r\n" + rest) && FindCrlf(line + "\r\n" + rest) == |line|
    ensures (line + "\r\n" + rest)[..|line|] == line
    ensures (line + "\r\n" + rest)[|line| + 2..] == rest
  {
    var t := line + "\r\n" + rest;
    assert CrlfAt(t, |line|);
    assert forall i :: 0 <= i < |line| - 1 ==> CrlfAt(t, i) == CrlfAt(line, i);
  }

  lemma NoCrlfWithoutLf(s: string)
    requires '\n' !in s
    ensures !HasCrlf(s)
  {
  }

  // ----- trimming and case -----

  predicate IsOws(c: char) { c == ' ' || c == '\t' }

  function TrimLeft(s: string): string {
    if s != [] && IsOws(s[0]) then TrimLeft(s[1..]) else s
  }

  function TrimRight(s: string): string {
    if s != [] && IsOws(s[|s| - 1]) then TrimRight(s[..|s| - 1]) else s
  }

  function Trim(s: string): string { TrimRight(TrimLeft(s)) }

  lemma {:induction false} TrimLeftCuts(s: string) returns (from: nat)
    ensures from <= |s| && TrimLeft(s) == s[from..] && (from < |s| ==> !IsOws(s[from]))
  {
    if s != [] && IsOws(s[0]) {
      var k := TrimLeftCuts(s[1..]);
      from := k + 1;
    } else {
      from := 0;
    }
  }

  lemma {:induction false} TrimRightCuts(s: string) returns (to: nat)
    ensures to <= |s| && TrimRight(s) == s[..to] && (to > 0 ==> !IsOws(s[to - 1]))
  {
    if s != [] && IsOws(s[|s| - 1]) {
      to := TrimRightCuts(s[..|s| - 1]);
      assert s[..|s| - 1][..to] == s[..to];
    } else {
      to := |s|;
    }
  }

  /** Nothing but blanks and tabs. */
  predicate Blank(s: string) { forall i :: 0 <= i < |s| ==> s[i] == ' ' || s[i] == '\t' }

  lemma {:induction false} TrimLeftSkips(blank: string, s: string)
    requires Blank(blank)
    ensures TrimLeft(blank + s) == TrimLeft(s)
    decreases |blank|
  {
    if blank == "" {
      assert blank + s == s;
    } else {
      assert (blank + s)[0] == blank[0] && (blank + s)[1..] == blank[1..] + s;
      TrimLeftSkips(blank[1..], s);
    }
  }

  lemma {:induction false} TrimRightSkips(s: string, blank: string)
    requires Blank(blank)
    ensures TrimRight(s + blank) == TrimRight(s)
    decreases |blank|
  {
    if blank == "" {
      assert s + blank == s;
    } else {
      var n := |blank| - 1;
      assert (s + blank)[|s| + n] == blank[n] && (s + blank)[..|s| + n] == s + blank[..n];
      TrimRightSkips(s, blank[..n]);
    }
  }

  /** Trimming leaves what is between the outer blanks. */
  lemma TrimBetween(before: string, s: string, after: string)
    requires Blank(before) && Blank(after)
    requires s != "" ==> s[0] !in {' ', '\t'} && s[|s| - 1] !in {' ', '\t'}
    ensures Trim(before + s + after) == s
  {
    assert before + s + after == before + (s + after);
    TrimLeftSkips(before, s + after);
    if s == "" {
      assert s + after == after == after + "";
      TrimLeftSkips(after, "");
    } else {
      assert TrimLeft(s + after) == s + after;
      TrimRightSkips(s, after);
    }
  }

  predicate Trimmed(s: string) {
    s != [] ==> !IsOws(s[0]) && !IsOws(s[|s| - 1])
  }

  function Lower(c: char): char {
    if 'A' <= c <= 'Z' then (c as int + 32) as char else c
  }

  predicate EqualsIgnoreCase(a: string, b: string) {
    |a| == |b| && forall i :: 0 <= i < |a| ==> Lower(a[i]) == Lower(b[i])
  }

  // ----- numbers -----

  /** The value of a digit, 36 for a character that is no digit in any base used here. */
  function DigitValue(c: char): (d: nat)
    ensures d <= 15 || d == 36
  {
    if '0' <= c <= '9' then c as int - '0' as int
    else if 'a' <= c <= 'f' then c as int - 'a' as int + 10
    else if 'A' <= c <= 'F' then c as int - 'A' as int + 10
    else 36
  }

  predicate AllDigits(s: string, base: nat) {
    forall i :: 0 <= i < |s| ==> DigitValue(s[i]) < base
  }

  /** Positional value, most significant digit first. */
  function ValueOf(s: string, base: nat): nat {
    if s == [] then 0 else ValueOf(s[..|s| - 1], base) * base + DigitValue(s[|s| - 1])
  }

  function LeadingDigits(s: string, base: nat): (k: nat)
    ensures k <= |s| && AllDigits(s[..k], base)
    ensures k < |s| ==> DigitValue(s[k]) >= base
  {
    if s != [] && DigitValue(s[0]) < base then
      var k := 1 + LeadingDigits(s[1..], base);
      assert forall i :: 1 <= i < k ==> s[i] == s[1..][i - 1];
      k
    else 0
  }

  /** `std::from_chars`: the longest digit prefix, or nothing when it is empty or too large. */
  function FromChars(s: string, base: nat, limit: nat): Option<nat> {
    var k := LeadingDigits(s, base);
    if k == 0 || ValueOf(s[..k], base) >= limit then None else Some(ValueOf(s[..k], base))
  }

  /** What `FromChars` makes of digits and of what follows them, too large and none at all included. */
  lemma FromCharsIs(digits: string, rest: string, base: nat, limit: nat)
    requires AllDigits(digits, base) && (rest != [] ==> DigitValue(rest[0]) >= base)
    ensures FromChars(digits + rest, base, limit)
      == if digits == [] || ValueOf(digits, base) >= limit then None else Some(ValueOf(digits, base))
  {
    var s := digits + rest;
    var k := LeadingDigits(s, base);
    forall i | 0 <= i < |digits| ensures DigitValue(s[i]) < base { assert s[i] == digits[i]; }
    forall i | 0 <= i < k ensures DigitValue(s[i]) < base { assert s[i] == s[..k][i]; }
    if rest != [] { assert s[|digits|] == rest[0]; }
    assert k == |digits| && s[..k] == digits;
  }

  lemma FromCharsReads(digits: string, rest: string, base: nat, limit: nat)
    requires digits != [] && AllDigits(digits, base)
    requires rest != [] ==> DigitValue(rest[0]) >= base
    requires ValueOf(digits, base) < limit
    ensures FromChars(digits + rest, base, limit) == Some(ValueOf(digits, base))
  {
    FromCharsIs(digits, rest, base, limit);
  }

  /** The characters that are digits, and what they are worth. */
  lemma DigitsAre(c: char)
    ensures '0' <= c <= '9' <==> DigitValue(c) < 10
    ensures '0' <= c <= '9' || 'a' <= c <= 'f' || 'A' <= c <= 'F' <==> DigitValue(c) < 16
    ensures forall i :: 0 <= i < 16 ==> DigitValue("0123456789abcdef"[i]) == DigitValue("0123456789ABCDEF"[i]) == i
  {
    assert "0123456789abcdef"[10..] == "abcdef" && "0123456789ABCDEF"[10..] == "ABCDEF";
  }

  /** Folding takes each capital letter to its small one, and leaves every other character. */
  lemma LowerIs(c: char)
    ensures forall i :: 0 <= i < 26 ==> Lower("ABCDEFGHIJKLMNOPQRSTUVWXYZ"[i]) == "abcdefghijklmnopqrstuvwxyz"[i]
    ensures c !in "ABCDEFGHIJKLMNOPQRSTUVWXYZ" ==> Lower(c) == c
  {
    var capitals := "ABCDEFGHIJKLMNOPQRSTUVWXYZ";
    assert 'A' <= c <= 'Z' ==> capitals[c as int - 'A' as int] == c;
  }

  /** One digit after another, and no digits for nothing. */
  lemma ValueOfGrows(s: string, c: char, base: nat)
    ensures ValueOf("", base) == 0 && ValueOf(s + [c], base) == ValueOf(s, base) * base + DigitValue(c)
  {
    assert (s + [c])[..|s|] == s;
  }

  function DigitChar(d: nat): (c: char)
    requires d < 10
    ensures DigitValue(c) == d
  {
    ('0' as int + d) as char
  }

  /** `std::to_string` of an unsigned number. */
  function Decimal(n: nat): (s: string)
    ensures s != [] && AllDigits(s, 10) && ValueOf(s, 10) == n
    ensures n > 0 ==> s[0] != '0'
    ensures n == 0 ==> s == "0"
  {
    if n < 10 then [DigitChar(n)]
    else
      var s := Decimal(n / 10) + [DigitChar(n % 10)];
      assert s[..|s| - 1] == Decimal(n / 10);
      s
  }
}
