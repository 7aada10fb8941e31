/** The signed-cookie envelope: base64url(payload) "." base64url(MAC), with an opener
    (internal/signedcookie/signedcookie.go). The MAC is any function. */
module SignedCookie {
  import opened Wrappers
  import opened Strings

  /** Two bits. A byte is four of them and a base64 digit three, both written from the high end. */
  type crumb = x: int | 0 <= x < 4

  datatype byte = Byte(b0: crumb, b1: crumb, b2: crumb, b3: crumb)
  datatype sextet = Sextet(s0: crumb, s1: crumb, s2: crumb)

  type Bytes = seq<byte>
  type Mac = (Bytes, Bytes) -> Bytes

  // ----- base64url without padding -----

  /** The URL-safe alphabet A-Z a-z 0-9 - _ (RFC 4648, section 5). */
  function Symbol(n: nat): char
    requires n < 64
  {
    if n < 26 then 'A' + n as char
    else if n < 52 then 'a' + (n - 26) as char
    else if n < 62 then '0' + (n - 52) as char
    else if n == 62 then '-'
    else '_'
  }

  function Position(c: char): (n: Option<nat>)
    ensures n.Some? ==> n.value < 64 && Symbol(n.value) == c && c != '\r' && c != '\n'
  {
    if 'A' <= c <= 'Z' then Some((c - 'A') as int)
    else if 'a' <= c <= 'z' then Some((c - 'a') as int + 26)
    else if '0' <= c <= '9' then Some((c - '0') as int + 52)
    else if c == '-' then Some(62)
    else if c == '_' then Some(63)
    else None
  }

  lemma SymbolPosition(n: nat)
    requires n < 64
    ensures Position(Symbol(n)) == Some(n) && Symbol(n) !in ['.', '\r', '\n']
  {
  }

  function Number(v: sextet): (n: nat)
    ensures n < 64
  {
    16 * v.s0 + 4 * v.s1 + v.s2
  }

  function Crumbs(n: nat): (v: sextet)
    requires n < 64
    ensures Number(v) == n
  {
    var high := n / 4;
    Sextet(high / 4, high % 4, n % 4)
  }

  lemma CrumbsOfNumber(v: sextet)
    ensures Crumbs(Number(v)) == v
  {
  }

  function Digit(v: sextet): char {
    Symbol(Number(v))
  }

  function ValueOf(c: char): Option<sextet> {
    var n := Position(c);
    if n.None? then None else Some(Crumbs(n.value))
  }

  lemma DigitValue(v: sextet)
    ensures ValueOf(Digit(v)) == Some(v) && Digit(v) !in ['.', '\r', '\n']
  {
    SymbolPosition(Number(v));
    CrumbsOfNumber(v);
  }

  function ToText(v: seq<sextet>): string {
    if v == [] then "" else [Digit(v[0])] + ToText(v[1..])
  }

  function FromText(s: string): Option<seq<sextet>> {
    if s == "" then Some([])
    else
      var head, rest := ValueOf(s[0]), FromText(s[1..]);
      if head.None? || rest.None? then None else Some([head.value] + rest.value)
  }

  /** Three bytes spread over four sextets, a shorter last group filled up with zero bits. */
  function Sextets(b: Bytes): seq<sextet> {
    if b == [] then []
    else if |b| == 1 then
      [Sextet(b[0].b0, b[0].b1, b[0].b2), Sextet(b[0].b3, 0, 0)]
    else if |b| == 2 then
      [Sextet(b[0].b0, b[0].b1, b[0].b2), Sextet(b[0].b3, b[1].b0, b[1].b1), Sextet(b[1].b2, b[1].b3, 0)]
    else
      [Sextet(b[0].b0, b[0].b1, b[0].b2), Sextet(b[0].b3, b[1].b0, b[1].b1),
       Sextet(b[1].b2, b[1].b3, b[2].b0), Sextet(b[2].b1, b[2].b2, b[2].b3)]
      + Sextets(b[3..])
  }

  /** The reverse; a last group of one is an error, and its unused low bits are ignored. */
  function Octets(v: seq<sextet>): Option<Bytes> {
    if v == [] then Some([])
    else if |v| == 1 then None
    else
      var first := Byte(v[0].s0, v[0].s1, v[0].s2, v[1].s0);
      if |v| == 2 then Some([first])
      else
        var second := Byte(v[1].s1, v[1].s2, v[2].s0, v[2].s1);
        if |v| == 3 then Some([first, second])
        else
          var rest := Octets(v[4..]);
          if rest.None? then None
          else Some([first, second, Byte(v[2].s2, v[3].s0, v[3].s1, v[3].s2)] + rest.value)
  }

  /** The decoder skips line breaks wherever they stand. */
  function Strip(s: string): string {
    if s == "" then ""
    else if s[0] == '\r' || s[0] == '\n' then Strip(s[1..])
    else [s[0]] + Strip(s[1..])
  }

  function Encode(b: Bytes): string {
    ToText(Sextets(b))
  }

  function Decode(s: string): Option<Bytes> {
    var v := FromText(Strip(s));
    if v.None? then None else Octets(v.value)
  }

  /** The unused low bits of the last group are zero. */
  predicate CleanTail(v: seq<sextet>) {
    (|v| % 4 == 2 ==> v[|v| - 1].s1 == v[|v| - 1].s2 == 0) && (|v| % 4 == 3 ==> v[|v| - 1].s2 == 0)
  }

  /** No line breaks, and a clean last group. */
  predicate Canonical(s: string) {
    FromText(s).Some? && CleanTail(FromText(s).value)
  }

  lemma {:induction false} ReadWritten(v: seq<sextet>)
    ensures FromText(ToText(v)) == Some(v) && Strip(ToText(v)) == ToText(v) && '.' !in ToText(v)
  {
    if v != [] {
      var text := ToText(v);
      assert text[0] == Digit(v[0]) && text[1..] == ToText(v[1..]);
      assert v == [v[0]] + v[1..] && text == [text[0]] + text[1..];
      DigitValue(v[0]);
      ReadWritten(v[1..]);
    }
  }

  lemma {:induction false} WriteRead(s: string)
    requires FromText(s).Some?
    ensures ToText(FromText(s).value) == s && Strip(s) == s
  {
    if s != "" {
      WriteRead(s[1..]);
      assert s == [s[0]] + s[1..];
    }
  }

  lemma {:induction false} OctetsOfSextets(b: Bytes)
    ensures Octets(Sextets(b)) == Some(b)
  {
    if |b| == 1 {
      assert b == [b[0]];
    } else if |b| == 2 {
      assert b == [b[0], b[1]];
    } else if |b| >= 3 {
      OctetsOfSextets(b[3..]);
      assert Sextets(b)[4..] == Sextets(b[3..]);
      assert b == [b[0], b[1], b[2]] + b[3..];
    }
  }

  lemma FirstGroup(v: seq<sextet>)
    requires |v| >= 4 && Octets(v).Some?
    ensures Octets(v[4..]).Some? && Sextets(Octets(v).value) == v[..4] + Sextets(Octets(v[4..]).value)
  {
    var b, rest := Octets(v).value, Octets(v[4..]).value;
    assert b[3..] == rest;
    assert v[..4] == [v[0], v[1], v[2], v[3]];
  }

  lemma LastOfTwo(v: seq<sextet>)
    requires |v| == 2
    ensures Octets(v).Some? && (Sextets(Octets(v).value) == v <==> CleanTail(v))
  {
    assert v == [v[0], v[1]];
  }

  lemma LastOfThree(v: seq<sextet>)
    requires |v| == 3
    ensures Octets(v).Some? && (Sextets(Octets(v).value) == v <==> CleanTail(v))
  {
    assert v == [v[0], v[1], v[2]];
  }

  lemma CleanTailOfRest(v: seq<sextet>)
    requires |v| >= 4
    ensures CleanTail(v) <==> CleanTail(v[4..])
  {
    assert |v[4..]| % 4 == |v| % 4;
  }

  lemma {:induction false} SextetsOfOctets(v: seq<sextet>)
    requires Octets(v).Some?
    ensures Sextets(Octets(v).value) == v <==> CleanTail(v)
  {
    if |v| >= 4 {
      FirstGroup(v);
      SextetsOfOctets(v[4..]);
      CleanTailOfRest(v);
      SamePrefix(v[..4], Sextets(Octets(v[4..]).value), v);
    } else if |v| == 3 {
      LastOfThree(v);
    } else if |v| == 2 {
      LastOfTwo(v);
    }
  }

  lemma SamePrefix(a: seq<sextet>, b: seq<sextet>, v: seq<sextet>)
    requires |a| <= |v| && a == v[..|a|]
    ensures a + b == v <==> b == v[|a|..]
  {
    assert v == a + v[|a|..];
    assert (a + b)[|a|..] == b;
  }

  // ----- The encoding is the standard one -----

  /** The URL-safe alphabet of RFC 4648, section 5: the letters, the small letters and the digits, each in order, then the
      hyphen and the underscore. */
  lemma SymbolsAreStandard()
    ensures Symbol(0) == 'A' && Symbol(26) == 'a' && Symbol(52) == '0' && Symbol(62) == '-' && Symbol(63) == '_'
    ensures forall n: nat :: n < 62 && n != 25 && n != 51 && n != 61 ==> Symbol(n + 1) == Symbol(n) + 1 as char
  {
  }

  /** Each symbol is the one numbered by its sextet's bits, the high ones first. */
  lemma {:induction false} TextSpellsSextets(v: seq<sextet>)
    ensures |ToText(v)| == |v|
    ensures forall i :: 0 <= i < |v| ==> ToText(v)[i] == Symbol(16 * v[i].s0 + 4 * v[i].s1 + v[i].s2)
  {
    if v != [] {
      TextSpellsSextets(v[1..]);
    }
  }

  /** The bits of a byte string and of a list of sextets, two at a time, the high ones first. */
  function BitsOf(b: byte): seq<crumb> {
    [b.b0, b.b1, b.b2, b.b3]
  }

  function BitsIn(v: sextet): seq<crumb> {
    [v.s0, v.s1, v.s2]
  }

  function ByteBits(b: Bytes): seq<crumb> {
    if b == [] then [] else BitsOf(b[0]) + ByteBits(b[1..])
  }

  function SextetBits(v: seq<sextet>): seq<crumb> {
    if v == [] then [] else BitsIn(v[0]) + SextetBits(v[1..])
  }

  function Zeros(n: nat): seq<crumb> {
    if n == 0 then [] else [0] + Zeros(n - 1)
  }

  /** The fewest zero bits, two at a time, that fill up the last sextet. */
  function Padding(b: Bytes): (n: nat)
    ensures n < 3
  {
    if b == [] then 0
    else if |b| < 3 then 3 - |b|
    else Padding(b[3..])
  }

  lemma OneByteBits(b: Bytes)
    requires |b| == 1
    ensures ByteBits(b) == BitsOf(b[0])
  {
    assert ByteBits(b[1..]) == [];
  }

  lemma TwoByteBits(b: Bytes)
    requires |b| == 2
    ensures ByteBits(b) == BitsOf(b[0]) + BitsOf(b[1])
  {
    OneByteBits(b[1..]);
  }

  lemma FirstBytesBits(b: Bytes)
    requires |b| >= 3
    ensures ByteBits(b) == BitsOf(b[0]) + (BitsOf(b[1]) + (BitsOf(b[2]) + ByteBits(b[3..])))
  {
    assert b[1..][1..] == b[2..] && b[2..][1..] == b[3..];
    assert ByteBits(b[2..]) == BitsOf(b[2]) + ByteBits(b[3..]);
    assert ByteBits(b[1..]) == BitsOf(b[1]) + ByteBits(b[2..]);
  }

  lemma FirstSextetsBits(v: seq<sextet>)
    requires |v| >= 4
    ensures SextetBits(v) == BitsIn(v[0]) + (BitsIn(v[1]) + (BitsIn(v[2]) + (BitsIn(v[3]) + SextetBits(v[4..]))))
  {
    assert v[1..][1..] == v[2..] && v[2..][1..] == v[3..] && v[3..][1..] == v[4..];
    assert SextetBits(v[3..]) == BitsIn(v[3]) + SextetBits(v[4..]);
    assert SextetBits(v[2..]) == BitsIn(v[2]) + SextetBits(v[3..]);
    assert SextetBits(v[1..]) == BitsIn(v[1]) + SextetBits(v[2..]);
  }

  lemma ShortSextetsBits(v: seq<sextet>)
    requires |v| == 2 || |v| == 3
    ensures SextetBits(v) == BitsIn(v[0]) + BitsIn(v[1]) + if |v| == 3 then BitsIn(v[2]) else []
  {
    assert v[1..][1..] == v[2..];
    assert SextetBits(v[1..]) == BitsIn(v[1]) + SextetBits(v[2..]);
    if |v| == 3 {
      assert v[2..][1..] == [] && SextetBits(v[2..]) == BitsIn(v[2]) + [];
    }
  }

  lemma GroupBits(x: byte, y: byte, z: byte, rest: seq<crumb>)
    ensures BitsOf(x) + (BitsOf(y) + (BitsOf(z) + rest))
         == BitsIn(Sextet(x.b0, x.b1, x.b2)) + (BitsIn(Sextet(x.b3, y.b0, y.b1))
            + (BitsIn(Sextet(y.b2, y.b3, z.b0)) + (BitsIn(Sextet(z.b1, z.b2, z.b3)) + rest)))
  {
  }

  /** The sextets spell out the bytes' bits in order, followed by as few zeros as complete the last sextet. */
  lemma {:induction false} SextetsKeepBits(b: Bytes)
    ensures SextetBits(Sextets(b)) == ByteBits(b) + Zeros(Padding(b))
    ensures 3 * |Sextets(b)| == 4 * |b| + Padding(b)
  {
    hide SextetBits, ByteBits, Zeros, Sextets, Padding;
    if |b| < 3 {
      ShortBits(b);
    } else {
      var rest := b[3..];
      SextetsKeepBits(rest);
      LongGroup(b);
      SamePadding(b);
      LongBits(b, Zeros(Padding(b)));
      assert |Sextets(b)| == |Sextets(rest)| + 4;
    }
  }

  lemma LongGroup(b: Bytes)
    requires |b| >= 3
    ensures |Sextets(b)| >= 4 && Sextets(b)[4..] == Sextets(b[3..])
  {
  }

  lemma SamePadding(b: Bytes)
    requires |b| >= 3
    ensures Padding(b) == Padding(b[3..])
  {
  }

  lemma ShortBits(b: Bytes)
    requires |b| < 3
    ensures SextetBits(Sextets(b)) == ByteBits(b) + Zeros(Padding(b))
    ensures 3 * |Sextets(b)| == 4 * |b| + Padding(b)
  {
    hide SextetBits, ByteBits, Zeros;
    FewZeros();
    if b == [] {
      NoBits();
    } else {
      ShortSextetsBits(Sextets(b));
      if |b| == 1 {
        OneByteBits(b);
      } else {
        TwoByteBits(b);
      }
    }
  }

  lemma NoBits()
    ensures SextetBits([]) == [] && ByteBits([]) == [] && Zeros(0) == []
  {
  }

  lemma FewZeros()
    ensures Zeros(0) == [] && Zeros(1) == [0] && Zeros(2) == [0, 0]
  {
  }

  lemma LongBits(b: Bytes, fill: seq<crumb>)
    requires |b| >= 3 && SextetBits(Sextets(b[3..])) == ByteBits(b[3..]) + fill
    ensures SextetBits(Sextets(b)) == ByteBits(b) + fill
  {
    hide SextetBits, ByteBits, BitsOf, BitsIn;
    var v := Sextets(b);
    LongGroup(b);
    FirstBytesBits(b);
    FirstSextetsBits(v);
    GroupBits(b[0], b[1], b[2], ByteBits(b[3..]) + fill);
    AppendLast(BitsOf(b[0]), BitsOf(b[1]), BitsOf(b[2]), ByteBits(b[3..]), fill);
  }

  lemma AppendLast(x: seq<crumb>, y: seq<crumb>, z: seq<crumb>, rest: seq<crumb>, fill: seq<crumb>)
    ensures x + (y + (z + (rest + fill))) == x + (y + (z + rest)) + fill
  {
  }

  /** Decoding undoes encoding, for every byte string and every length residue. */
  lemma DecodeEncode(b: Bytes)
    ensures Decode(Encode(b)) == Some(b) && '.' !in Encode(b)
  {
    ReadWritten(Sextets(b));
    OctetsOfSextets(b);
  }

  /** The decoder's slack, exactly: of the strings it accepts, those the encoder produces are the ones without line
      breaks whose last group is clean. */
  lemma EncodeDecode(s: string)
    requires Decode(s).Some?
    ensures Encode(Decode(s).value) == s <==> Canonical(s)
  {
    var v := FromText(Strip(s)).value;
    SextetsOfOctets(v);
    WriteRead(Strip(s));
    ReadWritten(Sextets(Decode(s).value));
    if FromText(s).Some? {
      WriteRead(s);
    }
  }

  // ----- The envelope -----

  function Seal(mac: Mac, key: Bytes, payload: Bytes): string {
    Encode(payload) + "." + Encode(mac(key, payload))
  }

  function Open(mac: Mac, key: Bytes, token: string): Option<Bytes> {
    match Cut(token, ".")
    case None => None
    case Some((payload64, sig64)) =>
      var payload := Decode(payload64);
      var sig := Decode(sig64);
      if payload.None? || sig.None? then None
      else if sig.value != mac(key, payload.value) then None
      else payload
  }

  lemma CutAtFirstDot(a: string, b: string)
    requires '.' !in a
    ensures Cut(a + "." + b, ".") == Some((a, b))
  {
    NotWithout(a, ".", 0);
    CutIs(a, ".", b);
  }

  /** Opening exactly: a token opens to p when its part before the first dot decodes to p and the rest decodes to p's
      MAC, and in no other case. */
  lemma OpenExactly(mac: Mac, key: Bytes, token: string, payload: Bytes)
    ensures Open(mac, key, token) == Some(payload)
       <==> exists a: string, b: string ::
              token == a + "." + b && '.' !in a && Decode(a) == Some(payload) && Decode(b) == Some(mac(key, payload))
  {
    hide Decode, Find;
    if Open(mac, key, token) == Some(payload) {
      var (a, b) := Cut(token, ".").value;
      CutPieces(token, ".");
      ContainsChar(a, '.');
      assert token == a + "." + b;
    }
    if a: string, b: string :| token == a + "." + b && '.' !in a && Decode(a) == Some(payload)
                                && Decode(b) == Some(mac(key, payload)) {
      CutAtFirstDot(a, b);
    }
  }

  /** What was sealed opens, for every key and payload. */
  lemma OpenSeal(mac: Mac, key: Bytes, payload: Bytes)
    ensures Open(mac, key, Seal(mac, key, payload)) == Some(payload)
  {
    DecodeEncode(payload);
    DecodeEncode(mac(key, payload));
    OpenExactly(mac, key, Seal(mac, key, payload), payload);
  }

  lemma StripNothing()
    ensures Strip("") == ""
  {
  }

  lemma StripFirst(s: string)
    requires s != ""
    ensures Strip(s) == (if s[0] == '\r' || s[0] == '\n' then "" else [s[0]]) + Strip(s[1..])
  {
  }

  lemma {:induction false} StripConcat(a: string, b: string)
    ensures Strip(a + b) == Strip(a) + Strip(b)
  {
    hide Strip;
    if a == "" {
      StripNothing();
      assert a + b == b;
    } else {
      StripConcat(a[1..], b);
      assert (a + b)[1..] == a[1..] + b;
      StripFirst(a);
      StripFirst(a + b);
    }
  }

  lemma StripBreak(c: char)
    requires c == '\n' || c == '\r'
    ensures Strip([c]) == ""
  {
    assert [c][1..] == "";
  }

  /** Line breaks are skipped wherever they stand. */
  lemma DecodeIgnoresLineBreaks(a: string, c: char, b: string)
    requires c == '\n' || c == '\r'
    ensures Decode(a + [c] + b) == Decode(a + b)
  {
    hide Strip;
    StripConcat(a, b);
    StripConcat(a + [c], b);
    StripConcat(a, [c]);
    StripBreak(c);
    assert Strip(a) + "" == Strip(a);
  }

  /** The slack at work: a sealed token with a line break behind it is another token and opens to the same payload. */
  lemma SlackToken(mac: Mac, key: Bytes, payload: Bytes)
    ensures var token := Seal(mac, key, payload);
            token + "\n" != token && Open(mac, key, token + "\n") == Some(payload)
  {
    hide Decode, Encode;
    var a, b := Encode(payload), Encode(mac(key, payload));
    DecodeEncode(payload);
    DecodeEncode(mac(key, payload));
    DecodeIgnoresLineBreaks(b, '\n', "");
    assert b + ['\n'] + "" == b + "\n" && b + "" == b;
    CutAtFirstDot(a, b + "\n");
    assert Seal(mac, key, payload) + "\n" == a + "." + (b + "\n");
  }

  /** A token that opens to p is the sealed one exactly when both its parts are canonical. */
  lemma OpenedTokenIsSealed(mac: Mac, key: Bytes, a: string, b: string, payload: Bytes)
    requires '.' !in a && Open(mac, key, a + "." + b) == Some(payload)
    ensures a + "." + b == Seal(mac, key, payload) <==> Canonical(a) && Canonical(b)
  {
    hide Decode, Encode, Canonical, Cut;
    CutAtFirstDot(a, b);
    EncodeDecode(a);
    EncodeDecode(b);
    DecodeEncode(payload);
    if a + "." + b == Seal(mac, key, payload) {
      CutAtFirstDot(Encode(payload), Encode(mac(key, payload)));
    }
  }
}
