/** Responses as a server writes them: a status line, header fields in any order, a blank
    line and a body. Which of them the update takes, and as what. */
module OtaResponses {
  import Bits
  import opened OtaHeaders
  import opened OtaUpdate

  type byte = Bits.byte

  const CONTENT_LENGTH: string := "Content-Length"
  const CONTENT_RANGE: string := "Content-Range"

  datatype Field = Field(name: seq<byte>, value: seq<byte>)

  /** A response header: HTTP/1.0 or HTTP/1.1, a three-digit code, any reason text, and the
      fields. */
  datatype Header = Header(minor: nat, code: nat, reason: seq<byte>, fields: seq<Field>)

  predicate Plain(s: seq<byte>) {
    0 !in s && CR !in s
  }

  predicate PlainField(f: Field) {
    Plain(f.name) && 58 !in f.name && Plain(f.value)
  }

  predicate WellFormed(h: Header) {
    h.minor <= 1 && h.code < 1000 && Plain(h.reason) && forall f <- h.fields :: PlainField(f)
  }

  function Code(code: nat): (s: seq<byte>)
    requires code < 1000
    ensures |s| == 3
  {
    [48 + code / 100, 48 + code / 10 % 10, 48 + code % 10]
  }

  /** The status line, without its end. */
  function StatusText(h: Header): (s: seq<byte>)
    requires WellFormed(h)
    ensures |s| == 13 + |h.reason|
  {
    (if h.minor == 0 then Ascii("HTTP/1.0 ") else Ascii("HTTP/1.1 ")) + Code(h.code) + [32] + h.reason
  }

  /** A header line, without its end. */
  function FieldText(f: Field): (s: seq<byte>)
    ensures |s| == |f.name| + 1 + |f.value|
  {
    f.name + [58] + f.value
  }

  function FieldLines(fields: seq<Field>): seq<byte> {
    if fields == [] then [] else FieldText(fields[0]) + [CR, LF] + FieldLines(fields[1..])
  }

  function HeaderText(h: Header): seq<byte>
    requires WellFormed(h)
  {
    StatusText(h) + [CR, LF] + (FieldLines(h.fields) + [CR, LF])
  }

  /** Equal, or the two cases of one letter. */
  predicate SameLetter(a: byte, b: byte) {
    a == b || (65 <= a <= 90 && b == a + 32) || (65 <= b <= 90 && a == b + 32)
  }

  /** Whether two names are the same, in any case. */
  predicate SameName(a: seq<byte>, b: seq<byte>) {
    |a| == |b| && forall k | 0 <= k < |a| :: SameLetter(a[k], b[k])
  }

  /** The values of all fields of that name. */
  function Named(fields: seq<Field>, name: seq<byte>): seq<seq<byte>> {
    if fields == [] then []
    else if SameName(fields[0].name, name) then [fields[0].value] + Named(fields[1..], name)
    else Named(fields[1..], name)
  }

  // ---------------------------------------------------------------------------
  // Lines in a text

  /** A plain text, ended by CR LF, at i. */
  predicate LineAt(s: seq<byte>, i: nat, text: seq<byte>) {
    Plain(text) && WrittenAt(s, i, text + [CR, LF])
  }

  lemma LineBytes(s: seq<byte>, i: nat, text: seq<byte>)
    requires LineAt(s, i, text)
    ensures i + |text| + 2 <= |s| && s[i + |text|] == CR && s[i + |text| + 1] == LF
    ensures forall k | i <= k < i + |text| :: s[k] == text[k - i] && s[k] != 0 && s[k] != CR
  {
    var line := text + [CR, LF];
    assert forall k | i <= k < i + |line| :: s[k] == s[i..i + |line|][k - i];
  }

  lemma {:induction false} LineEndFound(s: seq<byte>, i: nat, j: nat)
    requires i <= j && j + 2 <= |s| && s[j] == CR && s[j + 1] == LF
    requires forall k | i <= k < j :: s[k] != 0 && s[k] != CR
    ensures LineEnd(s, i) == Some(j)
    decreases j - i
  {
    if i < j {
      LineEndFound(s, i + 1, j);
    }
  }

  lemma {:induction false} ColonFound(s: seq<byte>, i: nat, j: nat)
    requires i <= j < |s| && s[j] == 58 && forall k | i <= k < j :: s[k] != 0 && s[k] != 58
    ensures Colon(s, i) == Some(j)
    decreases j - i
  {
    if i < j {
      ColonFound(s, i + 1, j);
    }
  }

  /** No blank line begins inside a line. */
  lemma {:induction false} NoneInside(s: seq<byte>, i: nat, j: nat)
    requires i <= j <= |s| && forall k | i <= k < j :: s[k] != 0 && s[k] != CR
    ensures HeaderEnd(s, i) == HeaderEnd(s, j)
    decreases j - i
  {
    if i < j {
      NoneInside(s, i + 1, j);
    }
  }

  lemma LineEndOf(s: seq<byte>, i: nat, text: seq<byte>)
    requires LineAt(s, i, text)
    ensures LineEnd(s, i) == Some(i + |text|)
  {
    LineBytes(s, i, text);
    LineEndFound(s, i, i + |text|);
  }

  /** Fields and the blank line behind them, taken apart. */
  lemma FirstLine(s: seq<byte>, line: nat, fields: seq<Field>)
    requires fields != [] && PlainField(fields[0]) && WrittenAt(s, line, FieldLines(fields) + [CR, LF])
    ensures var text := FieldText(fields[0]);
            LineAt(s, line, text) && WrittenAt(s, line + |text| + 2, FieldLines(fields[1..]) + [CR, LF])
  {
    var text, rest := FieldText(fields[0]), FieldLines(fields[1..]) + [CR, LF];
    var all := FieldLines(fields) + [CR, LF];
    assert all == text + [CR, LF] + rest;
    SplitWritten(s, line, text + [CR, LF], rest);
  }

  lemma SplitWritten(s: seq<byte>, i: nat, a: seq<byte>, b: seq<byte>)
    requires WrittenAt(s, i, a + b)
    ensures WrittenAt(s, i, a) && WrittenAt(s, i + |a|, b)
  {
    var all := s[i..i + |a + b|];
    assert s[i..i + |a|] == all[..|a|] == a;
    assert s[i + |a|..i + |a| + |b|] == all[|a|..] == b;
  }

  /** The blank line ends the header, behind a line and all fields. */
  lemma {:induction false} HeaderEndFound(s: seq<byte>, i: nat, text: seq<byte>, fields: seq<Field>)
    requires LineAt(s, i, text) && forall f <- fields :: PlainField(f)
    requires WrittenAt(s, i + |text| + 2, FieldLines(fields) + [CR, LF])
    ensures HeaderEnd(s, i) == Some(i + |text| + 2 + |FieldLines(fields)| + 2)
    decreases |fields|
  {
    hide FieldText; hide HeaderEnd;
    var j := i + |text|;
    LineBytes(s, i, text);
    NoneInside(s, i, j);
    if fields == [] {
      BlankLineHere(s, j);
    } else {
      FirstLine(s, j + 2, fields);
      FieldBegins(s, j + 2, fields[0]);
      NoBlankLineHere(s, j);
      HeaderEndFound(s, j + 2, FieldText(fields[0]), fields[1..]);
    }
  }

  lemma BlankLineHere(s: seq<byte>, j: nat)
    requires j + 4 <= |s| && s[j] == CR && s[j + 1] == LF && s[j + 2..j + 4] == [CR, LF]
    ensures HeaderEnd(s, j) == Some(j + 4)
  {
    assert s[j + 2] == s[j + 2..j + 4][0] && s[j + 3] == s[j + 2..j + 4][1];
  }

  lemma NoBlankLineHere(s: seq<byte>, j: nat)
    requires j + 2 < |s| && s[j] == CR && s[j + 1] == LF && s[j + 2] != CR
    ensures HeaderEnd(s, j) == HeaderEnd(s, j + 2)
  {
    assert HeaderEnd(s, j) == HeaderEnd(s, j + 1);
  }

  /** A field line begins neither like the blank line nor like the end of the text. */
  lemma FieldBegins(s: seq<byte>, line: nat, f: Field)
    requires PlainField(f) && LineAt(s, line, FieldText(f))
    ensures line < |s| && s[line] != CR && s[line] != 0 && !LastLine(s, line)
  {
    LineBytes(s, line, FieldText(f));
  }

  // ---------------------------------------------------------------------------
  // Finding a field

  lemma LowerSame(a: byte, b: byte)
    ensures Lower(a) == Lower(b) <==> SameLetter(a, b)
  {
  }

  lemma NamedLineExactly(s: seq<byte>, line: nat, f: Field, name: seq<byte>)
    requires PlainField(f) && LineAt(s, line, FieldText(f))
    ensures NamedLine(s, line, line + |FieldText(f)|, name) <==> SameName(f.name, name)
  {
    var text := FieldText(f);
    LineBytes(s, line, text);
    assert text[|f.name|] == 58;
    assert forall k | 0 <= k < |f.name| :: text[k] == f.name[k] && text[k] != 58;
    ColonFound(s, line, line + |f.name|);
    if |f.name| == |name| {
      assert forall k | 0 <= k < |name| :: OtaHeaders.At(s, line + k) == f.name[k];
      forall k | 0 <= k < |name|
        ensures Lower(OtaHeaders.At(s, line + k)) == Lower(name[k]) <==> SameLetter(f.name[k], name[k])
      {
        LowerSame(f.name[k], name[k]);
      }
    }
  }

  /** Where the values of the fields of that name begin, behind their blanks. */
  function Places(s: seq<byte>, line: nat, fields: seq<Field>, name: seq<byte>): seq<nat>
    decreases |fields|
  {
    if fields == [] then []
    else
      var rest := Places(s, line + |FieldText(fields[0])| + 2, fields[1..], name);
      if SameName(fields[0].name, name) then [AfterBlanks(s, line + |name| + 1)] + rest else rest
  }

  lemma {:induction false} ValuesFound(s: seq<byte>, line: nat, fields: seq<Field>, name: seq<byte>)
    requires (forall f <- fields :: PlainField(f)) && WrittenAt(s, line, FieldLines(fields) + [CR, LF])
    ensures Values(s, line, name) == Some(Places(s, line, fields, name))
    decreases |fields|
  {
    hide NamedLine; hide SameName; hide AfterBlanks; hide FieldText;
    if fields == [] {
      assert s[line] == s[line..line + 2][0] && s[line + 1] == s[line..line + 2][1];
    } else {
      var f := fields[0];
      var text := FieldText(f);
      FirstLine(s, line, fields);
      FieldBegins(s, line, f);
      LineEndOf(s, line, text);
      NamedLineExactly(s, line, f, name);
      ValuesFound(s, line + |text| + 2, fields[1..], name);
    }
  }

  /** With one field of that name, its value stands at the only place, followed by CR. */
  lemma {:induction false} OnlyPlace(s: seq<byte>, line: nat, fields: seq<Field>, name: seq<byte>, value: seq<byte>)
    requires (forall f <- fields :: PlainField(f)) && WrittenAt(s, line, FieldLines(fields) + [CR, LF])
    requires Named(fields, name) == [[32] + value] && value != [] && !IsBlank(value[0])
    ensures |Places(s, line, fields, name)| == 1
    ensures WrittenAt(s, Places(s, line, fields, name)[0], value + [CR])
    decreases |fields|
  {
    hide SameName; hide FieldText; hide AfterBlanks; hide PlainField; hide Plain; hide WrittenAt;
    var f, text := fields[0], FieldText(fields[0]);
    FirstLine(s, line, fields);
    if SameName(f.name, name) {
      FirstNamed(fields, name, [32] + value);
      SameLength(f.name, name);
      NoPlace(s, line + |text| + 2, fields[1..], name);
      ValueAt(s, line, f, value);
      assert Places(s, line, fields, name) == [line + |f.name| + 2];
    } else {
      OnlyPlace(s, line + |text| + 2, fields[1..], name, value);
    }
  }

  lemma FirstNamed(fields: seq<Field>, name: seq<byte>, value: seq<byte>)
    requires fields != [] && SameName(fields[0].name, name) && Named(fields, name) == [value]
    ensures fields[0].value == value && Named(fields[1..], name) == []
  {
    hide SameName;
    var all := Named(fields, name);
    assert all == [fields[0].value] + Named(fields[1..], name);
    assert all[0] == fields[0].value && all[1..] == Named(fields[1..], name);
  }

  lemma SameLength(a: seq<byte>, b: seq<byte>)
    requires SameName(a, b)
    ensures |a| == |b|
  {
  }

  lemma {:induction false} NoPlace(s: seq<byte>, line: nat, fields: seq<Field>, name: seq<byte>)
    requires Named(fields, name) == []
    ensures Places(s, line, fields, name) == []
    decreases |fields|
  {
    hide SameName; hide FieldText; hide AfterBlanks;
    if fields != [] {
      NoPlace(s, line + |FieldText(fields[0])| + 2, fields[1..], name);
    }
  }

  lemma ValueAt(s: seq<byte>, line: nat, f: Field, value: seq<byte>)
    requires LineAt(s, line, FieldText(f)) && f.value == [32] + value && value != [] && !IsBlank(value[0])
    ensures var i := AfterBlanks(s, line + |f.name| + 1);
            i == line + |f.name| + 2 && WrittenAt(s, i, value + [CR])
  {
    hide LineAt;
    var text, i := FieldText(f), line + |f.name| + 2;
    LineSlice(s, line, text);
    Bits.SubSlice(s, line, line + |text| + 2, |f.name| + 1, |text| + 1);
    var shown := s[i - 1..line + |text| + 1];
    assert shown == (text + [CR, LF])[|f.name| + 1..|text| + 1] == [32] + value + [CR];
    assert s[i - 1] == shown[0] && s[i] == shown[1] == value[0];
    assert s[i..i + |value| + 1] == shown[1..];
  }

  lemma LineSlice(s: seq<byte>, i: nat, text: seq<byte>)
    requires LineAt(s, i, text)
    ensures i + |text| + 2 <= |s| && s[i..i + |text| + 2] == text + [CR, LF]
  {
  }

  // ---------------------------------------------------------------------------
  // What the parsers make of a header

  lemma Parts(h: Header, s: seq<byte>)
    requires WellFormed(h) && WrittenAt(s, 0, HeaderText(h))
    ensures LineAt(s, 0, StatusText(h)) && WrittenAt(s, |StatusText(h)| + 2, FieldLines(h.fields) + [CR, LF])
  {
    hide FieldLines;
    StatusPlain(h);
    SplitWritten(s, 0, StatusText(h) + [CR, LF], FieldLines(h.fields) + [CR, LF]);
  }

  lemma StatusPlain(h: Header)
    requires WellFormed(h)
    ensures Plain(StatusText(h))
  {
    assert Ascii("HTTP/1.0 ") == [72, 84, 84, 80, 47, 49, 46, 48, 32];
    assert Ascii("HTTP/1.1 ") == [72, 84, 84, 80, 47, 49, 46, 49, 32];
  }

  lemma CodeDigits(code: nat)
    requires code < 1000
    ensures var c := Code(code);
            && IsDigit(c[0]) && IsDigit(c[1]) && IsDigit(c[2])
            && (c[0] as int - 48) * 100 + (c[1] as int - 48) * 10 + (c[2] as int - 48) == code
  {
  }

  lemma StatusRead(h: Header)
    requires WellFormed(h)
    ensures StatusCode(HeaderText(h)) == Some(h.code)
  {
    hide FieldLines; hide Ascii; hide StatusText; hide Plain; hide Code;
    var s, text := HeaderText(h), StatusText(h);
    WholeText(h);
    LineEndOf(s, 0, text);
    StatusParts(h);
    CodeDigits(h.code);
    assert s[..|text|] == text;
    assert s[..9] == s[..|text|][..9];
    assert s[9] == s[..|text|][9] && s[10] == s[..|text|][10] && s[11] == s[..|text|][11] && s[12] == s[..|text|][12];
  }

  lemma StatusParts(h: Header)
    requires WellFormed(h)
    ensures var text, c := StatusText(h), Code(h.code);
            && text[..9] == (if h.minor == 0 then Ascii("HTTP/1.0 ") else Ascii("HTTP/1.1 "))
            && text[9] == c[0] && text[10] == c[1] && text[11] == c[2] && text[12] == 32
  {
    hide Ascii; hide Code;
  }

  lemma FieldRead(h: Header, name: seq<byte>, value: seq<byte>)
    requires WellFormed(h) && Named(h.fields, name) == [[32] + value] && value != [] && !IsBlank(value[0])
    ensures OnlyValue(HeaderText(h), name).Some?
    ensures WrittenAt(HeaderText(h), OnlyValue(HeaderText(h), name).value, value + [CR])
  {
    hide FieldLines; hide Named; hide WellFormed; hide StatusText;
    var s, text := HeaderText(h), StatusText(h);
    WholeText(h);
    LineEndOf(s, 0, text);
    ValuesFound(s, |text| + 2, h.fields, name);
    OnlyPlace(s, |text| + 2, h.fields, name, value);
  }

  lemma FieldMissing(h: Header, name: seq<byte>)
    requires WellFormed(h) && Named(h.fields, name) == []
    ensures OnlyValue(HeaderText(h), name).None?
  {
    hide FieldLines; hide Named; hide WellFormed; hide StatusText;
    var s, text := HeaderText(h), StatusText(h);
    WholeText(h);
    LineEndOf(s, 0, text);
    ValuesFound(s, |text| + 2, h.fields, name);
    NoPlace(s, |text| + 2, h.fields, name);
  }

  lemma WholeText(h: Header)
    requires WellFormed(h)
    ensures var s := HeaderText(h);
            && LineAt(s, 0, StatusText(h)) && WrittenAt(s, |StatusText(h)| + 2, FieldLines(h.fields) + [CR, LF])
            && forall f <- h.fields :: PlainField(f)
  {
    hide FieldLines;
    var s := HeaderText(h);
    assert s[0..|s|] == s;
    Parts(h, s);
  }

  // ---------------------------------------------------------------------------
  // Which responses are taken

  /** The value of a Content-Length, and of a Content-Range. */
  function LengthValue(n: nat): seq<byte> {
    [32] + Digits(n)
  }

  function RangeValue(r: Range): seq<byte> {
    [32] + (Ascii("bytes ") + Digits(r.start) + [45] + Digits(r.end) + [47] + Digits(r.total))
  }

  lemma LengthRead(h: Header, n: nat)
    requires WellFormed(h) && Named(h.fields, Ascii(CONTENT_LENGTH)) == [LengthValue(n)]
    ensures var value := OnlyValue(HeaderText(h), Ascii(CONTENT_LENGTH));
            value.Some? && Uint32(HeaderText(h), value.value) == if n <= UINT32_MAX then Some(n) else None
  {
    hide OnlyValue; hide Uint32; hide Named; hide Digits; hide Ascii; hide WellFormed; hide HeaderText;
    var s, name := HeaderText(h), Ascii(CONTENT_LENGTH);
    FieldRead(h, name, Digits(n));
    var i := OnlyValue(s, name).value;
    SplitWritten(s, i, Digits(n), [CR]);
    assert s[i + |Digits(n)|] == s[i + |Digits(n)|..i + |Digits(n)| + 1][0];
    Uint32ReadBack(s, i, n);
  }

  lemma RangeRead(h: Header, r: Range)
    requires WellFormed(h) && Named(h.fields, Ascii(CONTENT_RANGE)) == [RangeValue(r)]
    ensures var value := OnlyValue(HeaderText(h), Ascii(CONTENT_RANGE));
            && value.Some?
            && ContentRange(HeaderText(h), value.value)
               == if r.start <= UINT32_MAX && r.end <= UINT32_MAX && r.total <= UINT32_MAX then Some(r) else None
  {
    hide OnlyValue; hide ContentRange; hide Named; hide Digits; hide WellFormed; hide HeaderText;
    var s, name := HeaderText(h), Ascii(CONTENT_RANGE);
    var text := Ascii("bytes ") + Digits(r.start) + [45] + Digits(r.end) + [47] + Digits(r.total);
    FieldRead(h, name, text);
    assert text + [CR] == RangeText(Digits(r.start), Digits(r.end), Digits(r.total));
    ContentRangeReadBack(s, OnlyValue(s, name).value, r);
  }

  /** The header is found at the front of the stream, whatever the body. */
  lemma HeaderFound(h: Header, body: seq<byte>)
    requires WellFormed(h) && |HeaderText(h)| < 1024
    ensures HeaderEnd(Buffered(HeaderText(h) + body), 0) == Some(|HeaderText(h)|)
  {
    hide WellFormed; hide StatusText; hide FieldLines;
    var s := Buffered(HeaderText(h) + body);
    assert s[..|HeaderText(h)|] == HeaderText(h);
    SplitHeader(h, s);
    HeaderEndFound(s, 0, StatusText(h), h.fields);
  }

  lemma SplitHeader(h: Header, s: seq<byte>)
    requires WellFormed(h) && |HeaderText(h)| <= |s| && s[..|HeaderText(h)|] == HeaderText(h)
    ensures LineAt(s, 0, StatusText(h)) && WrittenAt(s, |StatusText(h)| + 2, FieldLines(h.fields) + [CR, LF])
    ensures forall f <- h.fields :: PlainField(f)
  {
    hide FieldLines;
    assert s[0..|HeaderText(h)|] == HeaderText(h);
    Parts(h, s);
  }

  /** The verdict comes from what the header says, and the body is the rest. */
  lemma JudgedByHeader(h: Header, body: seq<byte>, offset: nat, known: Option<nat>)
    requires WellFormed(h) && |HeaderText(h)| < 1024
    ensures Judge(HeaderText(h) + body, offset, known) == JudgeBody(Offer(Parse(HeaderText(h)), offset, known), body)
  {
    hide Parse; hide Offer; hide HeaderText; hide WellFormed; hide Buffered;
    HeaderFound(h, body);
    var stream, e := HeaderText(h) + body, |HeaderText(h)|;
    assert stream[..e] == HeaderText(h) && stream[e..] == body;
  }

  /** A body that fits: no longer than announced, and an image begins with a magic byte. */
  predicate GoodBody(start: nat, length: nat, body: seq<byte>) {
    |body| <= length && (start == 0 && body != [] ==> body[0] == 0xE9 || body[0] == 0xEA)
  }

  /** A response with code 200 and one Content-Length is taken from byte zero if and only
      if the size is sane and the body fits, whatever else it says. */
  lemma WholeTaken(h: Header, length: nat, body: seq<byte>, offset: nat, known: Option<nat>)
    requires WellFormed(h) && |HeaderText(h)| < 1024 && h.code == 200
    requires Named(h.fields, Ascii(CONTENT_LENGTH)) == [LengthValue(length)]
    ensures Judge(HeaderText(h) + body, offset, known)
         == if 102400 <= length <= 430080 && GoodBody(0, length, body)
            then Body(Terms(200, 0, length, length), body) else Rejected
  {
    hide HeaderText; hide WellFormed; hide Named; hide StatusCode; hide OnlyValue; hide Uint32; hide ContentRange; hide Judge;
    JudgedByHeader(h, body, offset, known);
    StatusRead(h);
    LengthRead(h, length);
  }

  /** The part of the image a range brings, when it continues at the offset. */
  predicate GoodRange(r: Range, length: nat, offset: nat, known: Option<nat>) {
    && r.start == offset && r.start <= r.end < r.total && length == r.end - r.start + 1
    && 102400 <= r.total <= 430080 && (known.Some? ==> known.value == r.total)
  }

  /** A response with code 206, one Content-Length and one Content-Range is taken if and
      only if the range begins at the offset and agrees with the length and the size. */
  lemma RangeTaken(h: Header, length: nat, r: Range, body: seq<byte>, offset: nat, known: Option<nat>)
    requires WellFormed(h) && |HeaderText(h)| < 1024 && h.code == 206
    requires Named(h.fields, Ascii(CONTENT_LENGTH)) == [LengthValue(length)]
    requires Named(h.fields, Ascii(CONTENT_RANGE)) == [RangeValue(r)]
    ensures Judge(HeaderText(h) + body, offset, known)
         == if GoodRange(r, length, offset, known) && GoodBody(offset, length, body)
            then Body(Terms(206, offset, length, r.total), body) else Rejected
  {
    hide HeaderText; hide WellFormed; hide Named; hide StatusCode; hide OnlyValue; hide Uint32; hide ContentRange; hide Judge;
    JudgedByHeader(h, body, offset, known);
    StatusRead(h);
    LengthRead(h, length);
    RangeRead(h, r);
  }

  /** Without a Content-Length, with a 206 but no Content-Range, and with any other code,
      a response is refused. */
  lemma OthersRefused(h: Header, body: seq<byte>, offset: nat, known: Option<nat>)
    requires WellFormed(h) && |HeaderText(h)| < 1024
    requires || (h.code != 200 && h.code != 206)
             || Named(h.fields, Ascii(CONTENT_LENGTH)) == []
             || (h.code == 206 && Named(h.fields, Ascii(CONTENT_RANGE)) == [])
    ensures Judge(HeaderText(h) + body, offset, known).Rejected?
  {
    hide HeaderText; hide WellFormed; hide Named; hide StatusCode; hide OnlyValue; hide Uint32; hide ContentRange; hide Judge;
    JudgedByHeader(h, body, offset, known);
    StatusRead(h);
    if Named(h.fields, Ascii(CONTENT_LENGTH)) == [] {
      FieldMissing(h, Ascii(CONTENT_LENGTH));
    }
    if Named(h.fields, Ascii(CONTENT_RANGE)) == [] {
      FieldMissing(h, Ascii(CONTENT_RANGE));
    }
  }

  // ---------------------------------------------------------------------------
  // Downloads that succeed

  predicate Tells(h: Header, code: nat, length: nat) {
    && WellFormed(h) && |HeaderText(h)| < 1024 && h.code == code
    && Named(h.fields, Ascii(CONTENT_LENGTH)) == [LengthValue(length)]
  }

  predicate TellsRange(h: Header, length: nat, r: Range) {
    Tells(h, 206, length) && Named(h.fields, Ascii(CONTENT_RANGE)) == [RangeValue(r)]
  }

  /** An image that can be installed. */
  predicate Installable(file: seq<byte>) {
    102400 <= |file| <= 430080 && (file[0] == 0xE9 || file[0] == 0xEA)
  }

  /** What was staged by the end of an update that went well. */
  function Installed(currentRom: nat, file: seq<byte>, first: Option<seq<byte>>, second: Option<seq<byte>>,
                     sha256: seq<byte> -> seq<byte>): seq<Staging> {
    var rom := if currentRom == 0 then 1 else 0;
    var expected := if rom == 0 then first else second;
    if (first.None? && second.None?) || expected == Some(sha256(file))
    then [Staging(rom, file, |file|, first, second)] else []
  }

  /** One connection: its packets, and its end. It brings the bytes of a file from `from` to
      `to`, or the whole file. */
  method DownloadPart(ota: Ota, file: seq<byte>, status: nat, from: nat, to: nat, stream: seq<seq<byte>>, io: Io)
    requires ota.Valid() && ota.Listening() && !ota.connected && ota.stream == [] && io.AllOk()
    requires from < to <= |file| && ota.image == ota.prefix == file[..from]
    requires Judge(Concat(stream), from, ota.sizeAsked) == Body(Terms(status, from, to - from, |file|), file[from..to])
    modifies ota, ota.timeoutTimer, ota.retryTimer
    ensures ota.Valid() && unchanged(ota`targetRom, ota`expected1, ota`expected2)
    ensures to < |file| ==>
              && ota.inProgress && ota.retryPending && ota.continuePending && ota.image == file[..to]
              && ota.firmwareSize == Some(|file|) && ota.stagings == old(ota.stagings)
    ensures to == |file| ==>
              && !ota.inProgress
              && ota.stagings == old(ota.stagings) +
                                 if DigestOk(ota.targetRom, ota.expected1, ota.expected2, ota.sha256(file))
                                 then [Staging(ota.targetRom, file, |file|, ota.expected1, ota.expected2)] else []
  {
    hide Judge; hide Concat; hide Ota.Core; hide DigestOk;
    ota.TcpConnect(true);
    ota.Deliver(stream, io);
    assert file[..from][..from] + file[from..to] == file[..to];
    assert file[..|file|] == file;
    ota.TcpDiscon(io);
  }

  /** An image that a server sends whole, in whatever packets, is staged if it has the
      digest given, and else nothing is. */
  method DownloadWhole(ota: Ota, currentRom: nat, first: Option<seq<byte>>, second: Option<seq<byte>>,
                       h: Header, file: seq<byte>, packets: seq<seq<byte>>, io: Io)
    requires ota.Valid() && io.AllOk() && Installable(file)
    requires Tells(h, 200, |file|) && Concat(packets) == HeaderText(h) + file
    modifies ota, ota.timeoutTimer, ota.retryTimer
    ensures ota.Valid() && !ota.inProgress
    ensures ota.stagings == old(ota.stagings) + Installed(currentRom, file, first, second, ota.sha256)
  {
    hide Judge; hide Tells; hide HeaderText; hide Concat; hide Ota.Core; hide Ota.Valid;
    ota.Start(currentRom, Some((first, second)), true, DnsOk(true));
    WholeJudged(h, file, 0, ota.sizeAsked);
    assert file[0..|file|] == file;
    DownloadPart(ota, file, 200, 0, |file|, packets, io);
  }

  lemma WholeJudged(h: Header, file: seq<byte>, offset: nat, known: Option<nat>)
    requires Tells(h, 200, |file|) && Installable(file)
    ensures Judge(HeaderText(h) + file, offset, known) == Body(Terms(200, 0, |file|, |file|), file)
  {
    hide Judge; hide WellFormed; hide HeaderText; hide Named;
    WholeTaken(h, |file|, file, offset, known);
  }

  function Sum(lengths: seq<nat>): nat {
    if lengths == [] then 0 else Sum(lengths[..|lengths| - 1]) + lengths[|lengths| - 1]
  }

  lemma {:induction false} SumGrows(lengths: seq<nat>, i: nat)
    requires i <= |lengths|
    ensures Sum(lengths[..i]) <= Sum(lengths)
    decreases |lengths|
  {
    if i < |lengths| {
      var shorter := lengths[..|lengths| - 1];
      assert shorter[..i] == lengths[..i];
      SumGrows(shorter, i);
    } else {
      assert lengths[..i] == lengths;
    }
  }

  lemma SumNext(lengths: seq<nat>, i: nat)
    requires i < |lengths|
    ensures Sum(lengths[..i + 1]) == Sum(lengths[..i]) + lengths[i]
  {
    assert lengths[..i + 1][..i] == lengths[..i];
  }

  /** Part i of a file: the server announces and sends as many bytes of it as it likes, at
      least one, from where the parts before end. */
  ghost predicate ServesPart(file: seq<byte>, lengths: seq<nat>, headers: seq<Header>, streams: seq<seq<seq<byte>>>, i: nat)
    requires i < |lengths| == |headers| == |streams|
  {
    var from, to := Sum(lengths[..i]), Sum(lengths[..i + 1]);
    && lengths[i] > 0 && from < to <= |file|
    && TellsRange(headers[i], lengths[i], Range(from, to - 1, |file|))
    && Concat(streams[i]) == HeaderText(headers[i]) + file[from..to]
  }

  lemma PartJudged(file: seq<byte>, lengths: seq<nat>, headers: seq<Header>, streams: seq<seq<seq<byte>>>, i: nat,
                   known: Option<nat>)
    requires i < |lengths| == |headers| == |streams| && ServesPart(file, lengths, headers, streams, i) && Installable(file)
    requires known.Some? ==> known.value == |file|
    ensures var from, to := Sum(lengths[..i]), Sum(lengths[..i + 1]);
            && to == from + lengths[i] <= |file| && lengths[i] > 0
            && Judge(Concat(streams[i]), from, known) == Body(Terms(206, from, lengths[i], |file|), file[from..to])
  {
    hide Judge; hide WellFormed; hide HeaderText; hide Named; hide Concat;
    var from, to := Sum(lengths[..i]), Sum(lengths[..i + 1]);
    SumNext(lengths, i);
    RangeTaken(headers[i], lengths[i], Range(from, to - 1, |file|), file[from..to], from, known);
  }

  /** An image that a server sends in parts, one for each request, however it chooses them:
      every part continues the one before, and the update succeeds without a retry. */
  method DownloadParts(ota: Ota, currentRom: nat, first: Option<seq<byte>>, second: Option<seq<byte>>, file: seq<byte>,
                       lengths: seq<nat>, headers: seq<Header>, streams: seq<seq<seq<byte>>>, io: Io)
    requires ota.Valid() && io.AllOk() && Installable(file)
    requires 0 < |lengths| == |headers| == |streams| && Sum(lengths) == |file|
    requires forall i | 0 <= i < |lengths| :: ServesPart(file, lengths, headers, streams, i)
    modifies ota, ota.timeoutTimer, ota.retryTimer
    ensures ota.Valid() && !ota.inProgress
    ensures ota.stagings == old(ota.stagings) + Installed(currentRom, file, first, second, ota.sha256)
  {
    hide Judge; hide Concat; hide Ota.Core; hide Sum; hide ServesPart; hide Ota.Valid;
    ota.Start(currentRom, Some((first, second)), true, DnsOk(true));
    NothingSummed(lengths);
    SizeKnown(ota);
    var last := |lengths| - 1;
    for i := 0 to last
      invariant ota.Valid() && ota.Listening() && !ota.connected && ota.stream == []
      invariant Sum(lengths[..i]) <= |file| && ota.image == ota.prefix == file[..Sum(lengths[..i])]
      invariant ota.sizeAsked.Some? ==> ota.sizeAsked.value == |file|
      invariant ota.targetRom == (if currentRom == 0 then 1 else 0) && ota.expected1 == first && ota.expected2 == second
      invariant ota.stagings == old(ota.stagings)
    {
      PartJudged(file, lengths, headers, streams, i, ota.sizeAsked);
      PartJudged(file, lengths, headers, streams, i + 1, Some(|file|));
      DownloadPart(ota, file, 206, Sum(lengths[..i]), Sum(lengths[..i + 1]), streams[i], io);
      Pending(ota);
      ota.RetryTimer(DnsOk(true));
      SizeKnown(ota);
    }
    PartJudged(file, lengths, headers, streams, last, ota.sizeAsked);
    assert lengths[..last + 1] == lengths;
    DownloadPart(ota, file, 206, Sum(lengths[..last]), |file|, streams[last], io);
  }

  lemma NothingSummed(lengths: seq<nat>)
    ensures Sum(lengths[..0]) == 0
  {
  }

  /** Nothing received yet: the size asked for is the size known. */
  lemma SizeKnown(ota: Ota)
    requires ota.Valid() && ota.Listening() && ota.stream == []
    ensures ota.sizeAsked == ota.firmwareSize
  {
    hide Judge; hide Ota.Core;
    ota.ImageOfBody();
    NothingYet(|ota.prefix|, ota.sizeAsked);
  }

  lemma Pending(ota: Ota)
    requires ota.Valid() && ota.inProgress && ota.retryPending
    ensures ota.retryTimer.armed
  {
    hide Ota.Core;
  }
}
