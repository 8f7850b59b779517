/** The HTTP response header of an OTA download: where it ends and what it says. Texts
    are C strings: behind their last byte they read as NUL. */
module OtaHeaders {
  import Bits

  type byte = Bits.byte

  datatype Option<T> = None | Some(value: T)

  /** A number in a text: the place behind its digits, and its value. */
  datatype Numeral = Numeral(end: nat, value: nat)

  datatype Range = Range(start: nat, end: nat, total: nat)

  /** What the header parsers make of the header text. */
  datatype Headers =
    | BadStatusLine
    | Headers(status: nat, contentLength: Option<nat>, contentRange: Option<Range>)

  const CR: byte := 13
  const LF: byte := 10
  const UINT32_MAX: nat := 0xFFFFFFFF

  // ---------------------------------------------------------------------------
  // Where the header ends

  predicate BlankLineAt(s: seq<byte>, i: nat) {
    i + 4 <= |s| && s[i] == CR && s[i + 1] == LF && s[i + 2] == CR && s[i + 3] == LF
  }

  /** Just behind the first blank line of the C string in s, searching from i. */
  function HeaderEnd(s: seq<byte>, i: nat): (e: Option<nat>)
    requires i <= |s|
    ensures e.Some? ==> i + 4 <= e.value <= |s|
    decreases |s| - i
  {
    if i == |s| || s[i] == 0 then None
    else if BlankLineAt(s, i) then Some(i + 4)
    else HeaderEnd(s, i + 1)
  }

  /** More bytes never move a blank line that was found, and a blank line they bring
      ends behind the bytes that had none. */
  lemma {:induction false} HeaderEndExtends(s: seq<byte>, t: seq<byte>, i: nat)
    requires i <= |s|
    ensures HeaderEnd(s, i).Some? ==> HeaderEnd(s + t, i) == HeaderEnd(s, i)
    ensures HeaderEnd(s, i).None? && HeaderEnd(s + t, i).Some? ==> HeaderEnd(s + t, i).value > |s|
    decreases |s| - i
  {
    if i < |s| && s[i] != 0 && !BlankLineAt(s, i) && !BlankLineAt(s + t, i) {
      HeaderEndExtends(s, t, i + 1);
    }
  }

  // ---------------------------------------------------------------------------
  // Scanning

  function At(s: seq<byte>, i: nat): byte {
    if i < |s| then s[i] else 0
  }

  predicate IsBlank(b: byte) {
    b == 32 || b == 9
  }

  predicate IsDigit(b: byte) {
    48 <= b <= 57
  }

  /** The end of a header line, or of the text. */
  predicate IsStop(b: byte) {
    b == CR || b == LF || b == 0
  }

  function AfterBlanks(s: seq<byte>, i: nat): (j: nat)
    ensures i <= j && !IsBlank(At(s, j)) && (j <= |s| || j == i)
    decreases |s| - i
  {
    if i < |s| && IsBlank(s[i]) then AfterBlanks(s, i + 1) else i
  }

  function AfterDigits(s: seq<byte>, i: nat): (j: nat)
    ensures i <= j && !IsDigit(At(s, j)) && (j <= |s| || j == i)
    ensures forall k | i <= k < j :: IsDigit(At(s, k))
    decreases |s| - i
  {
    if i < |s| && IsDigit(s[i]) then AfterDigits(s, i + 1) else i
  }

  /** The number that the digits s[i..j] write. */
  function Decimal(s: seq<byte>, i: nat, j: nat): nat
    requires i <= j && forall k | i <= k < j :: IsDigit(At(s, k))
  {
    if i == j then 0
    else
      assert IsDigit(At(s, j - 1));
      Decimal(s, i, j - 1) * 10 + (At(s, j - 1) - 48)
  }

  lemma {:induction false} DecimalGrows(s: seq<byte>, i: nat, j: nat, k: nat)
    requires i <= j <= k && forall m | i <= m < k :: IsDigit(At(s, m))
    ensures Decimal(s, i, j) <= Decimal(s, i, k)
    decreases k - j
  {
    if j < k {
      DecimalGrows(s, i, j, k - 1);
    }
  }

  /** A run of digits from i: its end and its value, unless there is none or it does not
      fit 32 bits. */
  function Number(s: seq<byte>, i: nat): Option<Numeral> {
    var j := AfterDigits(s, i);
    if i < j && Decimal(s, i, j) <= UINT32_MAX then Some(Numeral(j, Decimal(s, i, j))) else None
  }

  method SkipBlanks(s: seq<byte>, i: nat) returns (j: nat)
    ensures j == AfterBlanks(s, i)
  {
    j := i;
    while IsBlank(At(s, j))
      invariant AfterBlanks(s, i) == AfterBlanks(s, j)
      decreases |s| - j
    {
      j := j + 1;
    }
  }

  /** The digit loop: the overflow test before each step is exact. */
  method ReadNumber(s: seq<byte>, i: nat) returns (ok: bool, j: nat, value: nat)
    ensures ok == Number(s, i).Some?
    ensures ok ==> Number(s, i) == Some(Numeral(j, value))
  {
    j, value := i, 0;
    var haveDigit := false;
    ghost var end := AfterDigits(s, i);
    while IsDigit(At(s, j))
      invariant i <= j <= end && AfterDigits(s, j) == end
      invariant value == Decimal(s, i, j) <= UINT32_MAX
      invariant haveDigit == (i < j)
      decreases |s| - j
    {
      var digit := At(s, j) - 48;
      DecimalGrows(s, i, j + 1, end);
      if value > (UINT32_MAX - digit) / 10 {
        return false, j, value;
      }
      value := value * 10 + digit;
      haveDigit := true;
      j := j + 1;
    }
    ok := haveDigit;
  }

  // ---------------------------------------------------------------------------
  // Numbers and ranges

  /** An unsigned 32-bit number, with nothing but blanks around it on its line. */
  function Uint32(s: seq<byte>, i: nat): Option<nat> {
    var n := Number(s, AfterBlanks(s, i));
    if n.Some? && IsStop(At(s, AfterBlanks(s, n.value.end))) then Some(n.value.value) else None
  }

  method ParseUint32(s: seq<byte>, i: nat) returns (r: Option<nat>)
    ensures r == Uint32(s, i)
  {
    var p := SkipBlanks(s, i);
    var ok, j, value := ReadNumber(s, p);
    if !ok {
      return None;
    }
    p := SkipBlanks(s, j);
    if !IsStop(At(s, p)) {
      return None;
    }
    return Some(value);
  }

  function Lower(b: byte): byte {
    if 65 <= b <= 90 then b + 32 else b
  }

  function Ascii(text: string): (s: seq<byte>)
    ensures |s| == |text|
  {
    seq(|text|, i requires 0 <= i < |text| => (text[i] as int) % 256)
  }

  /** Whether `word` stands at i, in any case. */
  predicate Matches(s: seq<byte>, i: nat, word: seq<byte>) {
    forall k | 0 <= k < |word| :: Lower(At(s, i + k)) == Lower(word[k])
  }

  method EqualIgnoringCase(s: seq<byte>, i: nat, word: seq<byte>) returns (r: bool)
    ensures r == Matches(s, i, word)
  {
    for k := 0 to |word|
      invariant forall m | 0 <= m < k :: Lower(At(s, i + m)) == Lower(word[m])
    {
      if Lower(At(s, i + k)) != Lower(word[k]) {
        return false;
      }
    }
    return true;
  }

  /** "bytes START-END/TOTAL", with nothing but blanks around it on its line. */
  function ContentRange(s: seq<byte>, i: nat): Option<Range> {
    var p := AfterBlanks(s, i);
    if !Matches(s, p, Ascii("bytes")) || !IsBlank(At(s, p + 5)) then None
    else
      var start := Number(s, AfterBlanks(s, p + 5));
      if start.None? || At(s, start.value.end) != 45 then None
      else
        var end := Number(s, start.value.end + 1);
        if end.None? || At(s, end.value.end) != 47 then None
        else
          var total := Number(s, end.value.end + 1);
          if total.None? || !IsStop(At(s, AfterBlanks(s, total.value.end))) then None
          else Some(Range(start.value.value, end.value.value, total.value.value))
  }

  method ParseContentRange(s: seq<byte>, i: nat) returns (r: Option<Range>)
    ensures r == ContentRange(s, i)
  {
    hide Number; hide AfterBlanks; hide Matches; hide Ascii;
    var p := SkipBlanks(s, i);
    var named := EqualIgnoringCase(s, p, Ascii("bytes"));
    if !named || !IsBlank(At(s, p + 5)) {
      return None;
    }
    p := SkipBlanks(s, p + 5);
    var ok, j, start := ReadNumber(s, p);
    if !ok || At(s, j) != 45 {
      return None;
    }
    var end, total;
    ok, j, end := ReadNumber(s, j + 1);
    if !ok || At(s, j) != 47 {
      return None;
    }
    ok, j, total := ReadNumber(s, j + 1);
    if !ok {
      return None;
    }
    p := SkipBlanks(s, j);
    if !IsStop(At(s, p)) {
      return None;
    }
    return Some(Range(start, end, total));
  }

  // ---------------------------------------------------------------------------
  // Printed numbers are read back

  /** The decimal digits of n. */
  function Digits(n: nat): (s: seq<byte>)
    ensures |s| > 0 && forall k | 0 <= k < |s| :: IsDigit(s[k])
  {
    if n < 10 then [48 + n] else Digits(n / 10) + [48 + n % 10]
  }

  predicate WrittenAt(s: seq<byte>, i: nat, word: seq<byte>) {
    i + |word| <= |s| && s[i..i + |word|] == word
  }

  lemma {:induction false} DigitsValue(s: seq<byte>, i: nat, n: nat)
    requires WrittenAt(s, i, Digits(n))
    ensures forall k | i <= k < i + |Digits(n)| :: IsDigit(At(s, k))
    ensures Decimal(s, i, i + |Digits(n)|) == n
    decreases n
  {
    var j := i + |Digits(n)|;
    assert forall k | i <= k < j :: At(s, k) == Digits(n)[k - i];
    if n < 10 {
      assert Decimal(s, i, i) == 0;
    } else {
      assert s[i..j - 1] == Digits(n)[..|Digits(n)| - 1];
      DigitsValue(s, i, n / 10);
    }
  }

  lemma {:induction false} DigitsEnd(s: seq<byte>, i: nat, j: nat)
    requires i <= j && (forall k | i <= k < j :: IsDigit(At(s, k))) && !IsDigit(At(s, j))
    ensures AfterDigits(s, i) == j
    decreases j - i
  {
    if i < j {
      assert IsDigit(At(s, i));
      DigitsEnd(s, i + 1, j);
    }
  }

  /** A printed 32-bit number followed by anything but a digit is read back. */
  lemma NumberReadBack(s: seq<byte>, i: nat, n: nat)
    requires WrittenAt(s, i, Digits(n)) && !IsDigit(At(s, i + |Digits(n)|))
    ensures Number(s, i) == if n <= UINT32_MAX then Some(Numeral(i + |Digits(n)|, n)) else None
  {
    DigitsValue(s, i, n);
    DigitsEnd(s, i, i + |Digits(n)|);
  }

  /** A Content-Length value as a server writes it is read back, and one that does not
      fit 32 bits is refused, whatever its length. */
  lemma Uint32ReadBack(s: seq<byte>, i: nat, n: nat)
    requires WrittenAt(s, i, Digits(n)) && IsStop(At(s, i + |Digits(n)|))
    ensures Uint32(s, i) == if n <= UINT32_MAX then Some(n) else None
  {
    assert IsDigit(s[i..i + |Digits(n)|][0]);
    NumberReadBack(s, i, n);
  }

  /** A word inside a written text, and what follows it. */
  lemma Inside(s: seq<byte>, i: nat, text: seq<byte>, from: nat, word: seq<byte>)
    requires WrittenAt(s, i, text) && from + |word| < |text| && text[from..from + |word|] == word
    ensures WrittenAt(s, i + from, word)
    ensures At(s, i + from + |word|) == text[from + |word|]
  {
    var shown := s[i..i + |text|];
    assert shown == text;
    forall k | 0 <= k < |word|
      ensures s[i + from..i + from + |word|][k] == word[k]
    {
      assert shown[from + k] == text[from..from + |word|][k];
    }
    assert shown[from + |word|] == s[i + from + |word|];
  }

  /** A Content-Range value as a server writes it. */
  function RangeText(a: seq<byte>, b: seq<byte>, c: seq<byte>): (t: seq<byte>)
    ensures |t| == |a| + |b| + |c| + 9
    ensures t[..5] == Ascii("bytes") && t[5] == 32
    ensures t[6..6 + |a|] == a && t[6 + |a|] == 45
    ensures t[7 + |a|..7 + |a| + |b|] == b && t[7 + |a| + |b|] == 47
    ensures t[8 + |a| + |b|..8 + |a| + |b| + |c|] == c && t[8 + |a| + |b| + |c|] == CR
  {
    Ascii("bytes ") + a + [45] + b + [47] + c + [CR]
  }

  lemma BytesUnit(s: seq<byte>, i: nat, text: seq<byte>)
    requires WrittenAt(s, i, text) && |text| > 6 && text[..5] == Ascii("bytes") && text[5] == 32 && !IsBlank(text[6])
    ensures AfterBlanks(s, i) == i && Matches(s, i, Ascii("bytes"))
    ensures IsBlank(At(s, i + 5)) && AfterBlanks(s, i + 5) == i + 6
  {
    var unit := Ascii("bytes");
    forall k | 0 <= k < 7
      ensures At(s, i + k) == text[k]
    {
      assert s[i..i + |text|][k] == text[k];
    }
    assert forall k | 0 <= k < 5 :: text[..5][k] == unit[k];
    assert At(s, i + 0) == text[..5][0] == 98 && At(s, i + 5) == 32 && At(s, i + 6) == text[6];
  }

  /** So is a Content-Range value, and it is refused if one of its numbers does not fit. */
  lemma ContentRangeReadBack(s: seq<byte>, i: nat, r: Range)
    requires WrittenAt(s, i, RangeText(Digits(r.start), Digits(r.end), Digits(r.total)))
    ensures ContentRange(s, i)
         == if r.start <= UINT32_MAX && r.end <= UINT32_MAX && r.total <= UINT32_MAX then Some(r) else None
  {
    hide Digits; hide Number; hide RangeText; hide Matches; hide WrittenAt; hide AfterBlanks;
    var a, b, c := Digits(r.start), Digits(r.end), Digits(r.total);
    var text := RangeText(a, b, c);
    assert text[6] == text[6..6 + |a|][0];
    BytesUnit(s, i, text);
    Inside(s, i, text, 6, a);
    NumberReadBack(s, i + 6, r.start);
    Inside(s, i, text, 7 + |a|, b);
    NumberReadBack(s, i + 7 + |a|, r.end);
    Inside(s, i, text, 8 + |a| + |b|, c);
    NumberReadBack(s, i + 8 + |a| + |b|, r.total);
    NoBlanks(s, i + 8 + |a| + |b| + |c|);
  }

  /** Spaces and tabs in front of a value do not matter. */
  lemma {:induction false} BlanksSkipped(s: seq<byte>, i: nat, j: nat)
    requires i <= j <= |s| && (forall k | i <= k < j :: s[k] == 32 || s[k] == 9) && At(s, j) != 32 && At(s, j) != 9
    ensures AfterBlanks(s, i) == j
    decreases j - i
  {
    if i < j {
      BlanksSkipped(s, i + 1, j);
    }
  }

  lemma NoBlanks(s: seq<byte>, i: nat)
    requires !IsBlank(At(s, i))
    ensures AfterBlanks(s, i) == i
  {
  }

  // ---------------------------------------------------------------------------
  // Header lines

  /** The next line end at or behind i. */
  function LineEnd(s: seq<byte>, i: nat): (e: Option<nat>)
    ensures e.Some? ==> i <= e.value && e.value + 2 <= |s|
    decreases |s| - i
  {
    if i + 2 > |s| || s[i] == 0 then None
    else if s[i] == CR && s[i + 1] == LF then Some(i)
    else LineEnd(s, i + 1)
  }

  /** The first colon at or behind i. */
  function Colon(s: seq<byte>, i: nat): (c: Option<nat>)
    ensures c.Some? ==> i <= c.value < |s|
    decreases |s| - i
  {
    if i >= |s| || s[i] == 0 then None else if s[i] == 58 then Some(i) else Colon(s, i + 1)
  }

  predicate NamedLine(s: seq<byte>, line: nat, end: nat, name: seq<byte>) {
    var colon := Colon(s, line);
    colon.Some? && colon.value < end && colon.value - line == |name| && Matches(s, line, name)
  }

  predicate LastLine(s: seq<byte>, line: nat) {
    At(s, line) == 0 || (At(s, line) == CR && At(s, line + 1) == LF)
  }

  /** Where the values of all headers of that name begin, from `line` on; none when a
      line has no end. */
  function Values(s: seq<byte>, line: nat, name: seq<byte>): Option<seq<nat>>
    decreases |s| - line
  {
    if LastLine(s, line) then Some([])
    else
      var end := LineEnd(s, line);
      if end.None? then None
      else
        var rest := Values(s, end.value + 2, name);
        if rest.None? then None
        else if NamedLine(s, line, end.value, name) then Some([AfterBlanks(s, line + |name| + 1)] + rest.value)
        else rest
  }

  /** The value of the only header of that name. */
  function OnlyValue(s: seq<byte>, name: seq<byte>): Option<nat> {
    var end := LineEnd(s, 0);
    if end.None? then None
    else
      var values := Values(s, end.value + 2, name);
      if values.Some? && |values.value| == 1 then Some(values.value[0]) else None
  }

  /** Finds a header; callers refuse one that is missing or duplicated. */
  method GetHeaderValue(s: seq<byte>, name: seq<byte>) returns (value: Option<nat>, duplicate: bool)
    ensures (if duplicate then None else value) == OnlyValue(s, name)
  {
    value, duplicate := None, false;
    var end := LineEnd(s, 0);
    if end.None? {
      return;
    }
    var line := end.value + 2;
    ghost var all := Values(s, line, name);
    while !LastLine(s, line)
      invariant Values(s, line, name).None? ==> all.None?
      invariant Values(s, line, name).Some? ==> all.Some?
      invariant var seen := if value.None? then 0 else if duplicate then 2 else 1;
                Values(s, line, name).Some? ==>
                  && (seen == 0 ==> all == Values(s, line, name))
                  && (seen == 1 ==> all.value == [value.value] + Values(s, line, name).value)
                  && (seen == 2 ==> |all.value| >= 2)
      invariant duplicate ==> value.Some?
      decreases |s| - line
    {
      end := LineEnd(s, line);
      if end.None? {
        return None, duplicate;
      }
      var colon := Colon(s, line);
      var named := colon.Some? && colon.value < end.value && colon.value - line == |name|;
      if named {
        named := EqualIgnoringCase(s, line, name);
      }
      if named {
        if value.Some? {
          duplicate := true;
        } else {
          var v := SkipBlanks(s, colon.value + 1);
          value := Some(v);
        }
      }
      line := end.value + 2;
    }
  }

  // ---------------------------------------------------------------------------
  // The status line and the whole header

  /** The code of an HTTP/1.0 or HTTP/1.1 status line. */
  function StatusCode(s: seq<byte>): Option<nat> {
    var end := LineEnd(s, 0);
    if end.None? || end.value < 12 then None
    else if s[..9] != Ascii("HTTP/1.0 ") && s[..9] != Ascii("HTTP/1.1 ") then None
    else if !IsDigit(s[9]) || !IsDigit(s[10]) || !IsDigit(s[11]) then None
    else if s[12] != 32 && s[12] != CR then None
    else Some((s[9] as int - 48) * 100 + (s[10] as int - 48) * 10 + (s[11] as int - 48))
  }

  /** What a header says: an ambiguous or malformed value counts as missing. */
  function Parse(s: seq<byte>): Headers {
    if StatusCode(s).None? then BadStatusLine
    else
      var length := OnlyValue(s, Ascii("Content-Length"));
      var range := OnlyValue(s, Ascii("Content-Range"));
      Headers(StatusCode(s).value,
              if length.None? then None else Uint32(s, length.value),
              if range.None? then None else ContentRange(s, range.value))
  }

  method ParseLength(s: seq<byte>) returns (length: Option<nat>)
    ensures var value := OnlyValue(s, Ascii("Content-Length"));
            length == if value.None? then None else Uint32(s, value.value)
  {
    var value, duplicate := GetHeaderValue(s, Ascii("Content-Length"));
    if value.None? || duplicate {
      return None;
    }
    length := ParseUint32(s, value.value);
  }

  method ParseRange(s: seq<byte>) returns (range: Option<Range>)
    ensures var value := OnlyValue(s, Ascii("Content-Range"));
            range == if value.None? then None else ContentRange(s, value.value)
  {
    var value, duplicate := GetHeaderValue(s, Ascii("Content-Range"));
    if value.None? || duplicate {
      return None;
    }
    range := ParseContentRange(s, value.value);
  }

  method ParseHeaders(s: seq<byte>) returns (h: Headers)
    ensures h == Parse(s)
  {
    hide StatusCode; hide OnlyValue; hide Uint32; hide ContentRange; hide Ascii;
    var status := StatusCode(s);
    if status.None? {
      return BadStatusLine;
    }
    var length := ParseLength(s);
    var range := ParseRange(s);
    return Headers(status.value, length, range);
  }
}
