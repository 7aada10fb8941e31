/** The configuration the shell receives as JSON: the encoder's HTML-safe output (internal/webui/webui.go) and a reader of
    flat objects (RFC 8259, section 7). Strings are sequences of Unicode scalar values. */
module ConfigJson {
  import opened Wrappers
  import opened Numerals
  import opened Strings

  datatype Value = Str(text: string) | Num(number: int)

  type Member = (string, Value)

  // ----- Printing -----

  const HEX := "0123456789abcdef"

  const LINE_SEPARATOR := '\U{2028}'
  const PARAGRAPH_SEPARATOR := '\U{2029}'

  /** What may stand unescaped in a string that is safe inside HTML and JavaScript. */
  predicate Safe(c: char) {
    c >= ' ' && c !in ['"', '\\', '<', '>', '&', LINE_SEPARATOR, PARAGRAPH_SEPARATOR]
  }

  function Hex4(n: nat): (digits: string)
    requires n < 0x10000
    ensures |digits| == 4
  {
    var h := n / 16;
    var k := h / 16;
    [HEX[k / 16], HEX[k % 16], HEX[h % 16], HEX[n % 16]]
  }

  function EscapeChar(c: char): string {
    if Safe(c) then [c]
    else if c == '"' || c == '\\' then ['\\', c]
    else if c == '\U{8}' then "\\b"
    else if c == '\U{C}' then "\\f"
    else if c == '\n' then "\\n"
    else if c == '\r' then "\\r"
    else if c == '\t' then "\\t"
    else "\\u" + Hex4(c as int)
  }

  function Escaped(s: string): string {
    if s == "" then "" else EscapeChar(s[0]) + Escaped(s[1..])
  }

  function Quote(s: string): string {
    "\"" + Escaped(s) + "\""
  }

  function PrintNumber(n: int): string {
    if n < 0 then "-" + Decimal(-n) else Decimal(n)
  }

  function PrintValue(v: Value): string {
    match v
    case Str(text) => Quote(text)
    case Num(n) => PrintNumber(n)
  }

  function PrintMembers(o: seq<Member>): string
    requires o != []
  {
    Quote(o[0].0) + ":" + PrintValue(o[0].1) + if |o| == 1 then "}" else "," + PrintMembers(o[1..])
  }

  function PrintObject(o: seq<Member>): string {
    if o == [] then "{}" else "{" + PrintMembers(o)
  }

  // ----- Reading -----

  function HexValue(c: char): Option<nat> {
    if '0' <= c <= '9' then Some((c - '0') as int)
    else if 'a' <= c <= 'f' then Some((c - 'a') as int + 10)
    else if 'A' <= c <= 'F' then Some((c - 'A') as int + 10)
    else None
  }

  /** Four hexadecimal digits as one character; halves of surrogate pairs are not read. */
  function ReadHex4(text: string): Option<char> {
    if |text| < 4 then None
    else
      var a, b, c, d := HexValue(text[0]), HexValue(text[1]), HexValue(text[2]), HexValue(text[3]);
      if a.None? || b.None? || c.None? || d.None? then None
      else
        var n := 0x1000 * a.value + 0x100 * b.value + 0x10 * c.value + d.value;
        if n < 0xD800 || 0xE000 <= n < 0x10000 then Some(n as char) else None
  }

  /** The character a backslash sequence stands for, and how many characters follow the backslash. */
  function ReadEscape(text: string): (escape: Option<(char, nat)>)
    ensures escape.Some? ==> 0 < escape.value.1 <= |text|
  {
    if text == "" then None
    else if text[0] in ['"', '\\', '/'] then Some((text[0], 1))
    else if text[0] == 'b' then Some(('\U{8}', 1))
    else if text[0] == 'f' then Some(('\U{C}', 1))
    else if text[0] == 'n' then Some(('\n', 1))
    else if text[0] == 'r' then Some(('\r', 1))
    else if text[0] == 't' then Some(('\t', 1))
    else if text[0] == 'u' then
      var c := ReadHex4(text[1..]);
      if c.None? then None else Some((c.value, 5))
    else None
  }

  /** The characters up to the closing quote, and the text after it. */
  function ReadChars(text: string): (read: Option<(string, string)>)
    ensures read.Some? ==> |read.value.1| < |text|
    decreases |text|
  {
    if text == "" || text[0] < ' ' then None
    else if text[0] == '"' then Some(("", text[1..]))
    else if text[0] == '\\' then
      var escape := ReadEscape(text[1..]);
      if escape.None? then None else Prepend(escape.value.0, ReadChars(text[1 + escape.value.1..]))
    else Prepend(text[0], ReadChars(text[1..]))
  }

  function Prepend(c: char, read: Option<(string, string)>): Option<(string, string)> {
    if read.None? then None else Some(([c] + read.value.0, read.value.1))
  }

  predicate IsDigit(c: char) {
    '0' <= c <= '9'
  }

  function DigitsIn(text: string): (n: nat)
    ensures n <= |text|
  {
    if text == "" || !IsDigit(text[0]) then 0 else 1 + DigitsIn(text[1..])
  }

  function ReadNatural(text: string): (read: Option<(int, string)>)
    ensures read.Some? ==> |read.value.1| < |text|
  {
    var n := DigitsIn(text);
    if n == 0 then None else Some((ValueOf(text[..n]), text[n..]))
  }

  function ReadValue(text: string): (read: Option<(Value, string)>)
    ensures read.Some? ==> |read.value.1| < |text|
  {
    if text == "" then None
    else if text[0] == '"' then
      var chars := ReadChars(text[1..]);
      if chars.None? then None else Some((Str(chars.value.0), chars.value.1))
    else if text[0] == '-' then
      var number := ReadNatural(text[1..]);
      if number.None? then None else Some((Num(-number.value.0), number.value.1))
    else
      var number := ReadNatural(text);
      if number.None? then None else Some((Num(number.value.0), number.value.1))
  }

  /** The members of an object whose opening brace has been read, written without spaces. */
  function ReadMembers(text: string): Option<seq<Member>>
    decreases |text|
  {
    if text == "" || text[0] != '"' then None
    else
      var name := ReadChars(text[1..]);
      if name.None? || name.value.1 == "" || name.value.1[0] != ':' then None
      else
        var value := ReadValue(name.value.1[1..]);
        if value.None? then None
        else
          var first, rest := (name.value.0, value.value.0), value.value.1;
          if rest == "}" then Some([first])
          else if rest == "" || rest[0] != ',' then None
          else
            var others := ReadMembers(rest[1..]);
            if others.None? then None else Some([first] + others.value)
  }

  function ReadObject(text: string): Option<seq<Member>> {
    if text == "{}" then Some([])
    else if text == "" || text[0] != '{' then None
    else ReadMembers(text[1..])
  }

  // ----- Round trip -----

  lemma HexDigit(n: nat)
    requires n < 16
    ensures HexValue(HEX[n]) == Some(n)
  {
    assert HEX[0] == '0' && HEX[1] == '1' && HEX[2] == '2' && HEX[3] == '3' && HEX[4] == '4' && HEX[5] == '5'
        && HEX[6] == '6' && HEX[7] == '7' && HEX[8] == '8' && HEX[9] == '9' && HEX[10] == 'a' && HEX[11] == 'b'
        && HEX[12] == 'c' && HEX[13] == 'd' && HEX[14] == 'e' && HEX[15] == 'f';
  }

  lemma ReadHex4Is(text: string, a: nat, b: nat, c: nat, d: nat)
    requires |text| >= 4 && HexValue(text[0]) == Some(a) && HexValue(text[1]) == Some(b)
    requires HexValue(text[2]) == Some(c) && HexValue(text[3]) == Some(d)
    requires 0x1000 * a + 0x100 * b + 0x10 * c + d < 0xD800
    ensures ReadHex4(text) == Some((0x1000 * a + 0x100 * b + 0x10 * c + d) as char)
  {
  }

  lemma ReadHex4Printed(c: char, rest: string)
    requires c as int < 0xD800
    ensures ReadHex4(Hex4(c as int) + rest) == Some(c)
  {
    var n := c as int;
    var h := n / 16;
    var k := h / 16;
    HexDigit(k / 16);
    HexDigit(k % 16);
    HexDigit(h % 16);
    HexDigit(n % 16);
    ReadHex4Is(Hex4(n) + rest, k / 16, k % 16, h % 16, n % 16);
  }

  lemma ReadUnicode(digits: string)
    ensures ReadEscape("u" + digits) == if ReadHex4(digits).Some? then Some((ReadHex4(digits).value, 5)) else None
  {
    assert ("u" + digits)[1..] == digits;
  }

  lemma ReadEscapedChar(c: char, rest: string)
    requires !Safe(c)
    ensures var text := EscapeChar(c);
            && |text| > 1 && text[0] == '\\'
            && ReadEscape(text[1..] + rest) == Some((c, |text| - 1))
  {
    hide Hex4, ReadHex4;
    var text := EscapeChar(c);
    if |text| == 6 {
      assert text[1..] + rest == "u" + (Hex4(c as int) + rest);
      ReadHex4Printed(c, rest);
      ReadUnicode(Hex4(c as int) + rest);
    }
  }

  lemma ReadBackslash(escape: string, c: char, more: string)
    requires |escape| > 1 && escape[0] == '\\' && ReadEscape(escape[1..] + more) == Some((c, |escape| - 1))
    ensures ReadChars(escape + more) == Prepend(c, ReadChars(more))
  {
    var text := escape + more;
    assert text[1..] == escape[1..] + more;
    assert text[|escape|..] == more;
  }

  lemma ReadPrintedChar(c: char, more: string)
    ensures ReadChars(EscapeChar(c) + more) == Prepend(c, ReadChars(more))
  {
    if Safe(c) {
      assert ([c] + more)[1..] == more;
    } else {
      ReadEscapedChar(c, more);
      ReadBackslash(EscapeChar(c), c, more);
    }
  }

  lemma {:induction false} ReadEscapedText(s: string, rest: string)
    requires rest != "" && rest[0] == '"'
    ensures ReadChars(Escaped(s) + rest) == Some((s, rest[1..]))
  {
    if s == "" {
      assert Escaped(s) + rest == rest;
    } else {
      ReadEscapedText(s[1..], rest);
      Regroup(EscapeChar(s[0]), Escaped(s[1..]), rest);
      ReadPrintedChar(s[0], Escaped(s[1..]) + rest);
      assert [s[0]] + s[1..] == s;
    }
  }

  predicate EndsNumber(rest: string) {
    rest == "" || !IsDigit(rest[0])
  }

  lemma {:induction false} DigitsBefore(digits: string, rest: string)
    requires (forall i :: 0 <= i < |digits| ==> IsDigit(digits[i])) && EndsNumber(rest)
    ensures DigitsIn(digits + rest) == |digits|
  {
    if digits == "" {
      assert digits + rest == rest;
    } else {
      assert (digits + rest)[1..] == digits[1..] + rest;
      DigitsBefore(digits[1..], rest);
    }
  }

  lemma ReadPrintedNatural(n: nat, rest: string)
    requires EndsNumber(rest)
    ensures ReadNatural(Decimal(n) + rest) == Some((n, rest))
  {
    var digits := Decimal(n);
    forall i | 0 <= i < |digits| ensures IsDigit(digits[i]) {
      assert digits[i] in DIGITS;
    }
    DigitsBefore(digits, rest);
    ValueOfDecimal(n);
    assert (digits + rest)[..|digits|] == digits && (digits + rest)[|digits|..] == rest;
  }

  lemma ReadPrintedNumber(n: int, rest: string)
    requires EndsNumber(rest)
    ensures ReadValue(PrintNumber(n) + rest) == Some((Num(n), rest))
  {
    hide ReadNatural, Decimal;
    var digits := Decimal(if n < 0 then -n else n);
    ReadPrintedNatural(if n < 0 then -n else n, rest);
    assert digits[0] in DIGITS;
    if n < 0 {
      assert ("-" + digits + rest)[1..] == digits + rest;
    } else {
      assert (digits + rest)[0] == digits[0];
    }
  }

  lemma AfterFirst(first: char, a: string, b: string)
    ensures ([first] + a + b)[0] == first && ([first] + a + b)[1..] == a + b
  {
  }

  lemma ReadQuoted(s: string, rest: string)
    ensures var text := Quote(s) + rest;
            text[0] == '"' && ReadChars(text[1..]) == Some((s, rest))
  {
    var closing := "\"" + rest;
    assert closing[1..] == rest;
    ReadEscapedText(s, closing);
    Regroup("\"" + Escaped(s), "\"", rest);
    AfterFirst('"', Escaped(s), closing);
  }

  lemma ReadPrintedValue(v: Value, rest: string)
    requires EndsNumber(rest)
    ensures ReadValue(PrintValue(v) + rest) == Some((v, rest))
  {
    match v {
      case Str(s) => ReadQuoted(s, rest);
      case Num(n) => ReadPrintedNumber(n, rest);
    }
  }

  /** One member and what may follow it. */
  function ReadOthers(first: Member, rest: string): Option<seq<Member>> {
    if rest == "}" then Some([first])
    else if rest == "" || rest[0] != ',' then None
    else
      var others := ReadMembers(rest[1..]);
      if others.None? then None else Some([first] + others.value)
  }

  lemma ReadMemberStep(text: string, m: Member, afterName: string, rest: string)
    requires text != "" && text[0] == '"' && ReadChars(text[1..]) == Some((m.0, afterName))
    requires afterName != "" && afterName[0] == ':' && ReadValue(afterName[1..]) == Some((m.1, rest))
    ensures ReadMembers(text) == ReadOthers(m, rest)
  {
  }

  lemma ReadMember(m: Member, rest: string)
    requires EndsNumber(rest)
    ensures ReadMembers(Quote(m.0) + ":" + PrintValue(m.1) + rest) == ReadOthers(m, rest)
  {
    var value := PrintValue(m.1) + rest;
    Regroup(Quote(m.0), ":", PrintValue(m.1));
    Regroup(Quote(m.0), ":" + PrintValue(m.1), rest);
    Regroup(":", PrintValue(m.1), rest);
    ReadQuoted(m.0, ":" + value);
    assert (":" + value)[1..] == value;
    ReadPrintedValue(m.1, rest);
    ReadMemberStep(Quote(m.0) + (":" + value), m, ":" + value, rest);
  }

  lemma {:induction false} ReadPrintedMembers(o: seq<Member>)
    requires o != []
    ensures ReadMembers(PrintMembers(o)) == Some(o)
  {
    hide ReadMembers, Quote, PrintValue;
    if |o| == 1 {
      ReadMember(o[0], "}");
      assert o == [o[0]];
    } else {
      var more := PrintMembers(o[1..]);
      ReadPrintedMembers(o[1..]);
      ReadMember(o[0], "," + more);
      assert ("," + more)[1..] == more;
      assert o == [o[0]] + o[1..];
    }
  }

  /** Whatever the values, the printed object reads back as the very members it was printed from. */
  lemma ReadPrinted(o: seq<Member>)
    ensures ReadObject(PrintObject(o)) == Some(o)
  {
    if o != [] {
      ReadPrintedMembers(o);
      assert PrintObject(o)[1..] == PrintMembers(o);
      assert PrintObject(o)[1] == '"';
    }
  }

  // ----- Safe inside a script element -----

  /** The characters that could end a script element or open another. */
  predicate HasAngle(s: string) {
    '<' in s || '>' in s
  }

  /** No control character, no ampersand, no angle bracket, and neither of the two line ends that only JavaScript has. */
  predicate Inert(s: string) {
    forall i :: 0 <= i < |s| ==> ' ' <= s[i] && s[i] !in ['<', '>', '&', '\U{2028}', '\U{2029}']
  }

  lemma InertConcat(a: string, b: string)
    requires Inert(a) && Inert(b)
    ensures Inert(a + b)
  {
  }

  lemma InertHex(n: nat)
    requires n < 0x10000
    ensures Inert(Hex4(n))
  {
    assert forall i :: 0 <= i < |HEX| ==> '0' <= HEX[i] <= 'f' && HEX[i] != '<' && HEX[i] != '>';
  }

  lemma InertChar(c: char)
    ensures Inert(EscapeChar(c))
    ensures |EscapeChar(c)| == if Safe(c) then 1
                               else if c in ['"', '\\', '\n', '\r', '\t', '\U{8}', '\U{C}'] then 2
                               else 6
  {
    hide Hex4;
    if |EscapeChar(c)| == 6 {
      InertHex(c as int);
    }
  }

  lemma {:induction false} InertEscaped(s: string)
    ensures Inert(Escaped(s))
  {
    hide EscapeChar;
    if s != "" {
      InertChar(s[0]);
      InertEscaped(s[1..]);
      InertConcat(EscapeChar(s[0]), Escaped(s[1..]));
    }
  }

  lemma InertQuoted(s: string)
    ensures Inert(Quote(s))
  {
    InertEscaped(s);
  }

  lemma InertDecimal(n: nat)
    ensures Inert(Decimal(n))
  {
    forall i | 0 <= i < |Decimal(n)| ensures Decimal(n)[i] in DIGITS {
    }
  }

  lemma InertValue(v: Value)
    ensures Inert(PrintValue(v))
  {
    match v {
      case Str(text) => InertQuoted(text);
      case Num(n) => InertDecimal(if n < 0 then -n else n);
    }
  }

  lemma {:induction false} InertMembers(o: seq<Member>)
    requires o != []
    ensures Inert(PrintMembers(o))
  {
    hide Quote, PrintValue;
    InertQuoted(o[0].0);
    InertValue(o[0].1);
    if |o| > 1 {
      InertMembers(o[1..]);
    }
  }

  /** Whatever the values, the printed object is inert inside HTML and JavaScript. */
  lemma PrintedIsInert(o: seq<Member>)
    ensures Inert(PrintObject(o)) && !HasAngle(PrintObject(o))
  {
    if o != [] {
      InertMembers(o);
    }
    assert Inert(PrintObject(o));
  }
}
