/**
 What the parser makes of single lines, in terms of how they are written: status lines, header lines,
 size lines, and lengths. Every line has one of these forms.
 */
module LineForms {
  import opened Wrappers
  import opened Text
  import opened Headers
  import opened ParserSpec

  // ----- header lines -----

  predicate NoOuterBlanks(s: string) { s != "" ==> s[0] !in {' ', '\t'} && s[|s| - 1] !in {' ', '\t'} }

  /** Blanks and tabs around the value do not count, and there need not be any. */
  lemma HeaderLineReads(name: string, before: string, value: string, after: string)
    requires name != "" && ':' !in name && Blank(before) && Blank(after) && NoOuterBlanks(value)
    ensures ParseHeaderLine(name + ":" + before + value + after) == Ok(Field(name, value))
  {
    var line, rest := name + ":" + before + value + after, before + value + after;
    assert line == name + [':'] + rest;
    FindSplits(name, ':', rest);
    assert line[..|name|] == name && line[|name| + 1..] == rest;
    TrimBetween(before, value, after);
  }

  /** Every line with a colon that is not its first character has that form. */
  lemma HeaderLineForm(line: string) returns (name: string, before: string, value: string, after: string)
    requires ':' in line && line[0] != ':'
    ensures line == name + ":" + before + value + after
    ensures name != "" && ':' !in name && Blank(before) && Blank(after) && NoOuterBlanks(value)
  {
    var colon := Find(line, ':');
    var rest := line[colon + 1..];
    name := line[..colon];
    before, value, after := BetweenBlanks(rest);
    assert line == name + ":" + rest;
  }

  lemma {:induction false} BetweenBlanks(s: string) returns (before: string, mid: string, after: string)
    ensures s == before + mid + after && Blank(before) && Blank(after) && NoOuterBlanks(mid)
    decreases |s|
  {
    if s != "" && s[0] in {' ', '\t'} {
      before, mid, after := BetweenBlanks(s[1..]);
      before := [s[0]] + before;
    } else if s != "" && s[|s| - 1] in {' ', '\t'} {
      before, mid, after := BetweenBlanks(s[..|s| - 1]);
      after := after + [s[|s| - 1]];
    } else {
      before, mid, after := "", s, "";
    }
  }

  /** A header line is refused exactly when it has no colon, or begins with one. */
  lemma HeaderLineFaults(line: string)
    ensures ParseHeaderLine(line).Err? <==> ':' !in line || line[0] == ':'
    ensures ':' !in line ==> ParseHeaderLine(line) == Err(MissingColon)
    ensures ':' in line && line[0] == ':' ==> ParseHeaderLine(line) == Err(EmptyHeaderName)
    ensures CodeOf(MissingColon) == CodeOf(EmptyHeaderName) == InvalidHeader
  {
    if ':' in line {
      var i :| 0 <= i < |line| && line[i] == ':';
      assert Find(line, ':') <= i;
    }
  }

  // ----- status lines -----

  predicate IsVersion(word: string) { |word| >= 8 && word[..7] == "HTTP/1." }

  predicate IsNumber(word: string) { forall i :: 0 <= i < |word| ==> '0' <= word[i] <= '9' }

  lemma NumbersAreDigits(word: string)
    ensures IsNumber(word) <==> AllDigits(word, 10)
  {
    forall i | 0 <= i < |word| ensures '0' <= word[i] <= '9' <==> DigitValue(word[i]) < 10 { DigitsAre(word[i]); }
  }

  /** The parts of a line of two words and a tail. */
  lemma WordSlices(version: string, code: string, tail: string)
    ensures var line, a := version + " " + code + tail, |version|;
      var n := a + 1 + |code|;
      line[..a] == version && line[a] == ' ' && line[a + 1..n] == code && line[n..] == tail
  {
  }

  lemma BlanksBy(line: string, a: nat, n: nat)
    requires a < n <= |line| && line[a] == ' ' && ' ' !in line[..a] && ' ' !in line[a + 1..n]
    requires n < |line| ==> line[n] == ' '
    ensures Find(line, ' ') == a && FindFrom(line, ' ', a + 1) == n
  {
    assert forall i :: 0 <= i < a ==> line[i] == line[..a][i];
    assert forall i :: a + 1 <= i < n ==> line[i] == line[a + 1..n][i - a - 1];
  }

  lemma TailBy(line: string, a: nat, n: nat, tail: string)
    requires a <= n <= |line| && line[n..] == tail
    ensures tail != "" ==> n < |line| && line[n] == tail[0] && line[n + 1..] == tail[1..]
    ensures tail == "" ==> n == |line|
    ensures a >= 7 ==> line[..7] == line[..a][..7]
  {
  }

  lemma StatusWords(version: string, code: string, tail: string)
    requires ' ' !in version && ' ' !in code && (tail != "" ==> tail[0] == ' ')
    ensures var line, n := version + " " + code + tail, |version| + 1 + |code|;
      && Find(line, ' ') == |version| && FindFrom(line, ' ', |version| + 1) == n
      && line[|version| + 1..n] == code && (tail != "" ==> n < |line| && line[n + 1..] == tail[1..])
      && (tail == "" ==> n == |line|) && (|version| >= 7 ==> line[..7] == version[..7])
  {
    var line, n := version + " " + code + tail, |version| + 1 + |code|;
    WordSlices(version, code, tail);
    TailBy(line, |version|, n, tail);
    BlanksBy(line, |version|, n);
  }

  /**
   A line of a first word, a second word, and what follows it: the fault, or the code and the reason,
   in the order in which the source looks.
   */
  lemma StatusLineReads(version: string, code: string, tail: string)
    requires ' ' !in version && ' ' !in code && (tail != "" ==> tail[0] == ' ')
    ensures ParseStatusLine(version + " " + code + tail)
      == if !IsVersion(version) then Err(BadVersion)
         else if code == "" then Err(EmptyStatusCode)
         else if !IsNumber(code) then Err(NonDigitStatusCode)
         else if ValueOf(code, 10) < 100 || ValueOf(code, 10) > 599 then Err(StatusCodeOutOfRange)
         else Ok((ValueOf(code, 10), if tail == "" then "" else tail[1..]))
  {
    var line, n := version + " " + code + tail, |version| + 1 + |code|;
    StatusWords(version, code, tail);
    NumbersAreDigits(code);
    StatusBy(line, |version|, n, code, if tail == "" then "" else tail[1..]);
  }

  lemma StatusBy(line: string, sp1: nat, sp2: nat, code: string, reason: string)
    requires sp1 == Find(line, ' ') < |line| && sp2 == FindFrom(line, ' ', sp1 + 1)
    requires code == line[sp1 + 1..sp2] && reason == if sp2 == |line| then "" else line[sp2 + 1..]
    ensures ParseStatusLine(line)
      == if sp1 < 8 || line[..7] != "HTTP/1." then Err(BadVersion)
         else if code == "" then Err(EmptyStatusCode)
         else if !AllDigits(code, 10) then Err(NonDigitStatusCode)
         else if ValueOf(code, 10) < 100 || ValueOf(code, 10) > 599 then Err(StatusCodeOutOfRange)
         else Ok((ValueOf(code, 10), reason))
  {
  }

  /** Every line with a blank has that form. */
  lemma StatusLineForm(line: string) returns (version: string, code: string, tail: string)
    requires ' ' in line
    ensures line == version + " " + code + tail
    ensures ' ' !in version && ' ' !in code && (tail != "" ==> tail[0] == ' ')
  {
    var sp1 := Find(line, ' ');
    var sp2 := FindFrom(line, ' ', sp1 + 1);
    version, code, tail := line[..sp1], line[sp1 + 1..sp2], line[sp2..];
  }

  /** A line without a blank is refused; and the codes that go with the faults. */
  lemma StatusLineFaults(line: string)
    ensures ' ' !in line ==> ParseStatusLine(line) == Err(MissingStatusCode)
    ensures CodeOf(BadVersion) == InvalidVersion
    ensures CodeOf(MissingStatusCode) == CodeOf(EmptyStatusCode) == CodeOf(NonDigitStatusCode) == ParseError
    ensures CodeOf(StatusCodeOutOfRange) == CodeOf(HeaderSectionTooLarge) == ParseError
  {
    if ' ' !in line { FindNothing(line, ' '); }
  }

  /** An unfinished line is refused exactly when it has more than 8192 bytes. */
  lemma PartialLineFails(p: Parser, mode: EraseMode)
    requires (p.phase == StatusLine || p.phase == HeaderLines) && !HasCrlf(p.buffer)
    ensures StopPoint(p) == p
    ensures Settle(p, mode) == if |p.buffer| > 8192 then p.(phase := Failed, fault := HeaderSectionTooLarge) else p
  {
  }

  // ----- size lines -----

  predicate IsHex(c: char) { '0' <= c <= '9' || 'a' <= c <= 'f' || 'A' <= c <= 'F' }

  predicate AllHex(s: string) { forall i :: 0 <= i < |s| ==> IsHex(s[i]) }

  predicate AllSpaces(s: string) { forall i :: 0 <= i < |s| ==> s[i] == ' ' }

  lemma {:induction false} SpacesAreSkipped(spaces: string, s: string)
    requires AllSpaces(spaces) && (s != "" ==> s[0] != ' ')
    ensures SkipSpaces(spaces + s) == s
    decreases |spaces|
  {
    if spaces == "" {
      assert spaces + s == s;
    } else {
      assert (spaces + s)[0] == ' ' && (spaces + s)[1..] == spaces[1..] + s;
      SpacesAreSkipped(spaces[1..], s);
    }
  }

  lemma HexAreDigits(s: string)
    ensures AllHex(s) <==> AllDigits(s, 16)
  {
    forall i | 0 <= i < |s| ensures IsHex(s[i]) <==> DigitValue(s[i]) < 16 { DigitsAre(s[i]); }
  }

  lemma BeforeSemicolon(text: string, extension: string)
    requires ';' !in text && (extension != "" ==> extension[0] == ';')
    ensures (text + extension)[..Find(text + extension, ';')] == text
  {
    var line := text + extension;
    if extension == "" {
      assert line == text;
      FindNothing(text, ';');
    } else {
      assert line == text + [';'] + extension[1..];
      FindSplits(text, ';', extension[1..]);
    }
  }

  /**
   A size line: blanks, hexadecimal digits, whatever follows them up to a semicolon, and an extension.
   The digits alone decide; there must be some, and they must spell at most 64 MiB.
   */
  lemma SizeLineIs(spaces: string, digits: string, junk: string, extension: string)
    requires AllSpaces(spaces) && AllHex(digits) && ';' !in junk && (extension != "" ==> extension[0] == ';')
    requires junk != "" ==> !IsHex(junk[0]) && (digits == "" ==> junk[0] != ' ')
    ensures ParseChunkLine(spaces + digits + junk + extension)
      == if digits == "" && junk == "" then Err(EmptyChunkSize)
         else if digits == "" || ValueOf(digits, 16) > 67108864 then Err(BadChunkSize)
         else Ok(ValueOf(digits, 16))
    ensures CodeOf(EmptyChunkSize) == CodeOf(BadChunkSize) == ChunkedEncodingError
  {
    var text, hex := spaces + digits + junk, digits + junk;
    NoSemicolon(spaces, digits, junk);
    BeforeSemicolon(text, extension);
    SizeTextSkips(spaces, digits, junk);
    HexReads(digits, junk);
    SizeBy(text + extension, hex);
  }

  lemma SizeTextSkips(spaces: string, digits: string, junk: string)
    requires AllSpaces(spaces) && AllHex(digits) && (junk != "" && digits == "" ==> junk[0] != ' ')
    ensures SkipSpaces(spaces + digits + junk) == digits + junk
  {
    if digits != "" { assert IsHex((digits + junk)[0]); }
    SpacesAreSkipped(spaces, digits + junk);
    assert spaces + digits + junk == spaces + (digits + junk);
  }

  lemma HexReads(digits: string, junk: string)
    requires AllHex(digits) && (junk != "" ==> !IsHex(junk[0]))
    ensures FromChars(digits + junk, 16, SIZE_LIMIT)
      == if digits == "" || ValueOf(digits, 16) >= SIZE_LIMIT then None else Some(ValueOf(digits, 16))
  {
    HexAreDigits(digits);
    if junk != "" { DigitsAre(junk[0]); }
    FromCharsIs(digits, junk, 16, SIZE_LIMIT);
  }

  lemma NoSemicolon(spaces: string, digits: string, junk: string)
    requires AllSpaces(spaces) && AllHex(digits) && ';' !in junk
    ensures ';' !in spaces + digits + junk
  {
  }

  lemma SizeBy(line: string, hex: string)
    requires SkipSpaces(line[..Find(line, ';')]) == hex
    ensures ParseChunkLine(line)
      == if hex == "" then Err(EmptyChunkSize)
         else if FromChars(hex, 16, SIZE_LIMIT).None? then Err(BadChunkSize)
         else if FromChars(hex, 16, SIZE_LIMIT).value > 67108864 then Err(BadChunkSize)
         else Ok(FromChars(hex, 16, SIZE_LIMIT).value)
  {
  }

  /** Every line has that form. */
  lemma SizeLineForm(line: string) returns (spaces: string, digits: string, junk: string, extension: string)
    ensures line == spaces + digits + junk + extension
    ensures AllSpaces(spaces) && AllHex(digits) && ';' !in junk && (extension != "" ==> extension[0] == ';')
    ensures junk != "" ==> !IsHex(junk[0]) && (digits == "" ==> junk[0] != ' ')
  {
    var semi := Find(line, ';');
    extension := line[semi..];
    var rest;
    spaces, rest := LeadingSpaces(line[..semi]);
    digits, junk := LeadingHex(rest);
    assert line == line[..semi] + extension;
    assert junk != "" ==> junk[0] == rest[|digits|];
    forall c | c in junk ensures c != ';' {
      assert c in rest && c in line[..semi];
    }
  }

  lemma {:induction false} LeadingSpaces(s: string) returns (spaces: string, rest: string)
    ensures s == spaces + rest && AllSpaces(spaces) && (rest != "" ==> rest[0] != ' ')
    decreases |s|
  {
    if s != "" && s[0] == ' ' {
      spaces, rest := LeadingSpaces(s[1..]);
      spaces := " " + spaces;
    } else {
      spaces, rest := "", s;
    }
  }

  lemma {:induction false} LeadingHex(s: string) returns (digits: string, rest: string)
    ensures s == digits + rest && AllHex(digits) && (rest != "" ==> !IsHex(rest[0]))
    decreases |s|
  {
    if s != "" && IsHex(s[0]) {
      digits, rest := LeadingHex(s[1..]);
      digits := [s[0]] + digits;
    } else {
      digits, rest := "", s;
    }
  }

  // ----- lengths -----

  /** A Content-Length counts by its leading digits, if there are any and they fit 64 bits. */
  lemma ContentLengthIs(fields: seq<Field>, digits: string, rest: string)
    requires Lookup(fields, "Content-Length") == Some(digits + rest)
    requires IsNumber(digits) && (rest != "" ==> !('0' <= rest[0] <= '9'))
    ensures ContentLength(fields)
      == if digits == "" || ValueOf(digits, 10) >= 18446744073709551616 then None else Some(ValueOf(digits, 10))
  {
    NumbersAreDigits(digits);
    if rest != "" { DigitsAre(rest[0]); }
    FromCharsIs(digits, rest, 10, SIZE_LIMIT);
  }

  lemma NoContentLength(fields: seq<Field>)
    requires Lookup(fields, "Content-Length") == None
    ensures ContentLength(fields) == None
  {
  }

  // ----- lists of words -----

  /** The list has the word, in any spelling, between commas, blanks and tabs. */
  ghost predicate HasWord(list: string, word: string) {
    exists before, spelled, after :: WordBetween(list, before, spelled, after) && EqualsIgnoreCase(spelled, word)
  }

  predicate Separates(c: char) { c == ' ' || c == '\t' || c == ',' }

  predicate WordBetween(list: string, before: string, spelled: string, after: string) {
    && list == before + spelled + after && spelled != ""
    && ' ' !in spelled && '\t' !in spelled && ',' !in spelled
    && (before != "" ==> Separates(before[|before| - 1])) && (after != "" ==> Separates(after[0]))
  }

  lemma WordIsToken(list: string, before: string, spelled: string, after: string)
    requires WordBetween(list, before, spelled, after)
    ensures var i, j := |before|, |before| + |spelled|; TokenAt(list, i, j) && list[i..j] == spelled
  {
    Slices(before, spelled, after);
    WordHasNoSeparator(spelled);
    SlicedToken(list, |before|, |before| + |spelled|);
  }

  lemma Slices(before: string, mid: string, after: string)
    ensures var s, i, j := before + mid + after, |before|, |before| + |mid|;
      s[..i] == before && s[i..j] == mid && s[j..] == after
  {
  }

  lemma WordHasNoSeparator(spelled: string)
    requires ' ' !in spelled && '\t' !in spelled && ',' !in spelled
    ensures forall k :: 0 <= k < |spelled| ==> !IsSeparator(spelled[k])
  {
  }

  lemma SlicedToken(list: string, i: nat, j: nat)
    requires i < j <= |list|
    requires var spelled := list[i..j]; forall k :: 0 <= k < |spelled| ==> !IsSeparator(spelled[k])
    requires var before := list[..i]; before != "" ==> Separates(before[|before| - 1])
    requires var after := list[j..]; after != "" ==> Separates(after[0])
    ensures TokenAt(list, i, j)
  {
    forall k | i <= k < j ensures !IsSeparator(list[k]) { assert list[k] == list[i..j][k - i]; }
  }

  lemma TokenIsWord(list: string, i: nat, j: nat)
    requires TokenAt(list, i, j)
    ensures WordBetween(list, list[..i], list[i..j], list[j..])
  {
    var spelled := list[i..j];
    assert forall k :: 0 <= k < |spelled| ==> spelled[k] == list[i + k];
  }

  lemma HasTokenIff(list: string, word: string)
    ensures HasToken(list, word) <==> HasWord(list, word)
  {
    if i, j :| TokenAt(list, i, j) && EqualsIgnoreCase(list[i..j], word) { TokenIsWord(list, i, j); }
    if before, spelled, after :| WordBetween(list, before, spelled, after) && EqualsIgnoreCase(spelled, word) {
      WordIsToken(list, before, spelled, after);
    }
  }

  /** Chunked if the first Transfer-Encoding lists chunked; not kept alive if the first Connection lists close. */
  lemma ListsDecide(fields: seq<Field>)
    ensures var coding := Lookup(fields, "Transfer-Encoding");
      IsChunked(fields) <==> coding.Some? && HasWord(coding.value, "chunked")
    ensures var connection := Lookup(fields, "Connection");
      KeepsAlive(fields) <==> connection.None? || !HasWord(connection.value, "close")
  {
    var coding, connection := Lookup(fields, "Transfer-Encoding"), Lookup(fields, "Connection");
    if coding.Some? { HasTokenIff(coding.value, "chunked"); }
    if connection.Some? { HasTokenIff(connection.value, "close"); }
  }

  // ----- chunks -----

  /** What follows the data of a chunk is two bytes, and it does not matter which. */
  lemma AnyTwoBytesEndAChunk(p: Parser, line: string, data: string, two: string, rest: string)
    requires p.phase == BodyChunked && p.buffer == line + "\r\n" + (data + two + rest) && |two| == 2
    requires !HasCrlf(line) && data != "" && ParseChunkLine(line) == Ok(|data|)
    ensures StopPoint(p)
      == StopPoint(p.(response := p.response.(body := p.response.body + data), buffer := rest))
  {
    var after := data + two + rest;
    LineEndsAtCrlf(line, after);
    assert after[..|data|] == data && after[|data| + 2..] == rest;
    assert Advance(p) == TakeChunk(p, Ok(|data|), after);
  }

  /** After the last size line the body is complete; a line end that is there already is taken, nothing else. */
  lemma LastSizeLineEnds(p: Parser, line: string, rest: string, mode: EraseMode)
    requires p.phase == BodyChunked && p.buffer == line + "\r\n" + rest
    requires !HasCrlf(line) && ParseChunkLine(line) == Ok(0)
    ensures Settle(StopPoint(p), mode)
      == p.(phase := Complete, buffer := if "\r\n" <= rest then rest[2..] else rest)
  {
    LineEndsAtCrlf(line, rest);
    assert StopPoint(p) == p;
  }
}
