/** Bold and italic text in the terms-of-service document: the scanner loop over the regular expression with the two
    lazy alternatives, double and single asterisks (web/src/lib/markdown.ts). */
module Markdown {
  import opened Wrappers
  import opened Strings

  const STRONG := "**"
  const EM := "*"

  /** One match: where its opening mark starts, which mark it is, and where its text ends. */
  datatype Span = Span(index: nat, mark: string, close: nat) {
    function Start(): nat {
      index + |mark|
    }

    function End(): nat {
      close + |mark|
    }
  }

  datatype Part = Raw(text: string) | Strong(key: nat, text: string) | Em(key: nat, text: string)

  /** What a dot does not match. */
  predicate LineTerminator(c: char) {
    c in ['\n', '\r', '\U{2028}', '\U{2029}']
  }

  predicate OneLine(text: string, i: nat, j: nat) {
    j <= |text| && forall k :: i <= k < j ==> !LineTerminator(text[k])
  }

  /** A mark, at least one character on one line, and the mark again. */
  predicate Matches(text: string, index: nat, mark: string, close: nat) {
    && At(text, mark, index) && index + |mark| < close && At(text, mark, close)
    && OneLine(text, index + |mark|, close)
  }

  /** The regular expression's choice at a position: the shortest match of the first alternative that has one. */
  ghost predicate IsMatch(text: string, span: Span) {
    && Matches(text, span.index, span.mark, span.close)
    && (span.mark == STRONG || (span.mark == EM && forall close: nat :: !Matches(text, span.index, STRONG, close)))
    && (forall close: nat :: close < span.close ==> !Matches(text, span.index, span.mark, close))
  }

  ghost predicate NoMatchFrom(text: string, i: nat, j: nat) {
    forall span: Span :: i <= span.index < j ==> !IsMatch(text, span)
  }

  // ----- The regular expression, step by step -----

  /** Where the lazy text that starts at i ends, trying k first. */
  function LazyEnd(text: string, mark: string, k: nat): (close: Option<nat>)
    requires k > 0
    decreases |text| - k
  {
    if k + |mark| > |text| || LineTerminator(text[k - 1]) then None
    else if At(text, mark, k) then Some(k)
    else LazyEnd(text, mark, k + 1)
  }

  function Alternative(text: string, mark: string, index: nat): Option<Span> {
    if !At(text, mark, index) then None
    else
      var close := LazyEnd(text, mark, index + |mark| + 1);
      if close.None? then None else Some(Span(index, mark, close.value))
  }

  function MatchAt(text: string, index: nat): Option<Span> {
    var strong := Alternative(text, STRONG, index);
    if strong.Some? then strong else Alternative(text, EM, index)
  }

  /** What exec finds from lastIndex on. */
  function Exec(text: string, lastIndex: nat): (m: Option<Span>)
    decreases |text| - lastIndex
  {
    if lastIndex >= |text| then None
    else if MatchAt(text, lastIndex).Some? then MatchAt(text, lastIndex)
    else Exec(text, lastIndex + 1)
  }

  lemma {:induction false} LazyEndIsFirst(text: string, mark: string, index: nat, k: nat)
    requires mark != "" && At(text, mark, index) && index + |mark| < k && OneLine(text, index + |mark|, k - 1)
    ensures match LazyEnd(text, mark, k)
            case Some(close) =>
              k <= close && Matches(text, index, mark, close) && forall c :: k <= c < close ==> !Matches(text, index, mark, c)
            case None => forall c :: k <= c ==> !Matches(text, index, mark, c)
    decreases |text| - k
  {
    if k + |mark| > |text| || LineTerminator(text[k - 1]) {
      NoCloseFrom(text, mark, index, k);
    } else if !At(text, mark, k) {
      hide At;
      LazyEndIsFirst(text, mark, index, k + 1);
    }
  }

  lemma NoCloseFrom(text: string, mark: string, index: nat, k: nat)
    requires index + |mark| < k && (k + |mark| > |text| || LineTerminator(text[k - 1]))
    ensures forall c :: k <= c ==> !Matches(text, index, mark, c)
  {
  }

  lemma AlternativeIsShortest(text: string, mark: string, index: nat)
    requires mark != ""
    ensures match Alternative(text, mark, index)
            case Some(span) =>
              && span.index == index && span.mark == mark && Matches(text, index, mark, span.close)
              && forall close: nat :: close < span.close ==> !Matches(text, index, mark, close)
            case None => forall close: nat :: !Matches(text, index, mark, close)
  {
    if At(text, mark, index) {
      LazyEndIsFirst(text, mark, index, index + |mark| + 1);
    }
  }

  /** The choice made step by step is the declared one. */
  lemma MatchAtIs(text: string, index: nat)
    ensures match MatchAt(text, index)
            case Some(span) => span.index == index < |text| && IsMatch(text, span)
            case None => forall span: Span :: span.index == index ==> !IsMatch(text, span)
  {
    AlternativeIsShortest(text, STRONG, index);
    AlternativeIsShortest(text, EM, index);
  }

  lemma MatchIsUnique(text: string, a: Span, b: Span)
    requires IsMatch(text, a) && IsMatch(text, b) && a.index == b.index
    ensures a == b
  {
  }

  lemma {:induction false} ExecIsLeftmost(text: string, lastIndex: nat)
    ensures match Exec(text, lastIndex)
            case Some(span) => lastIndex <= span.index && IsMatch(text, span) && NoMatchFrom(text, lastIndex, span.index)
            case None => forall j: nat :: NoMatchFrom(text, lastIndex, j)
    decreases |text| - lastIndex
  {
    MatchAtIs(text, lastIndex);
    if lastIndex >= |text| {
      forall span: Span | lastIndex <= span.index ensures !IsMatch(text, span) {
        assert !At(text, span.mark, span.index) || span.mark == "";
      }
    } else if MatchAt(text, lastIndex).None? {
      ExecIsLeftmost(text, lastIndex + 1);
      if Exec(text, lastIndex).None? {
        forall j: nat ensures NoMatchFrom(text, lastIndex, j) {
          assert NoMatchFrom(text, lastIndex + 1, j);
        }
      }
    }
  }

  // ----- The rendering loop -----

  lemma MatchConsumes(text: string, span: Span)
    requires IsMatch(text, span)
    ensures span.Start() < span.close && span.index + 3 <= span.End() <= |text|
    ensures span.mark == STRONG ==> span.index + 5 <= span.End()
    ensures text[span.index..span.Start()] == span.mark == text[span.close..span.End()]
  {
  }

  /** All matches from a position on. */
  function Spans(text: string, from: nat): seq<Span>
    decreases |text| - from
  {
    match Exec(text, from)
    case None => []
    case Some(span) => if from < span.End() <= |text| then [span] + Spans(text, span.End()) else []
  }

  /** The rendered parts: the matches' texts, and between them the text as it stands. */
  function Parts(text: string, from: nat, key: nat): seq<Part>
    requires from <= |text|
    decreases |text| - from
  {
    match Exec(text, from)
    case Some(span) =>
      if from < span.End() <= |text| then
        RawPart(text, from, span.index) + [MarkedPart(text, span, key)] + Parts(text, span.End(), key + 1)
      else []
    case None => RawPart(text, from, |text|)
  }

  function RawPart(text: string, i: nat, j: nat): seq<Part> {
    if i < j <= |text| then [Raw(text[i..j])] else []
  }

  function MarkedPart(text: string, span: Span, key: nat): Part {
    var inner := if span.Start() <= span.close <= |text| then text[span.Start()..span.close] else "";
    if span.mark == STRONG then Strong(key, inner) else Em(key, inner)
  }

  /** What one match adds to the parts. */
  lemma OneMatch(text: string, last: nat, key: nat, parts: seq<Part>, span: Span)
    requires Exec(text, last) == Some(span) && last <= span.index && IsMatch(text, span) && last <= |text|
    requires span.Start() <= span.close && span.End() <= |text|
    ensures var raw := if span.index > last then parts + [Raw(text[last..span.index])] else parts;
            var inner := text[span.Start()..span.close];
            parts + Parts(text, last, key)
            == raw + [if span.mark == STRONG then Strong(key, inner) else Em(key, inner)] + Parts(text, span.End(), key + 1)
  {
    hide Exec;
    MatchConsumes(text, span);
  }

  lemma NoMoreMatches(text: string, last: nat, key: nat)
    requires Exec(text, last) == None && last <= |text|
    ensures Parts(text, last, key) == if last < |text| then [Raw(text[last..])] else []
  {
    assert text[last..] == text[last..|text|];
  }

  method RenderInline(text: string) returns (parts: seq<Part>)
    ensures parts == Parts(text, 0, 0)
  {
    hide IsMatch, NoMatchFrom, Exec, Parts;
    parts := [];
    var last, key := 0, 0;
    var m := Exec(text, last);
    ExecIsLeftmost(text, last);
    while m.Some?
      invariant last <= |text| && m == Exec(text, last)
      invariant m.Some? ==> last <= m.value.index && IsMatch(text, m.value)
      invariant Parts(text, 0, 0) == parts + Parts(text, last, key)
      decreases |text| - last
    {
      var span := m.value;
      MatchConsumes(text, span);
      OneMatch(text, last, key, parts, span);
      if span.index > last {
        parts := parts + [Raw(text[last..span.index])];
      }
      var inner := text[span.Start()..span.close];
      if span.mark == STRONG {
        parts := parts + [Strong(key, inner)];
      } else {
        parts := parts + [Em(key, inner)];
      }
      key := key + 1;
      last := span.End();
      m := Exec(text, last);
      ExecIsLeftmost(text, last);
    }
    NoMoreMatches(text, last, key);
    if last < |text| {
      parts := parts + [Raw(text[last..])];
    }
  }

  // ----- What the parts are -----

  /** A list of matches from a position on that skips none: each is the first after the one before, and there is no
      match behind the last. */
  ghost predicate LeftmostShortest(text: string, from: nat, spans: seq<Span>)
    decreases |spans|
  {
    if spans == [] then forall j: nat :: NoMatchFrom(text, from, j)
    else
      && from <= spans[0].index && IsMatch(text, spans[0]) && NoMatchFrom(text, from, spans[0].index)
      && LeftmostShortest(text, spans[0].End(), spans[1..])
  }

  /** The loop finds exactly the leftmost shortest matches, in order. */
  lemma {:induction false} SpansAreLeftmostShortest(text: string, from: nat, spans: seq<Span>)
    ensures LeftmostShortest(text, from, spans) <==> spans == Spans(text, from)
    decreases |text| - from
  {
    hide IsMatch, NoMatchFrom;
    ExecIsLeftmost(text, from);
    match Exec(text, from) {
      case None =>
        if spans != [] && LeftmostShortest(text, from, spans) {
          SomeMatch(text, from, spans[0]);
        }
      case Some(first) =>
        MatchConsumes(text, first);
        SomeMatch(text, from, first);
        if spans != [] && spans[0] == first {
          SpansAreLeftmostShortest(text, first.End(), spans[1..]);
          assert spans == [first] + spans[1..];
        } else if spans != [] && LeftmostShortest(text, from, spans) {
          FirstIsUnique(text, from, first, spans[0]);
        }
    }
  }

  lemma SomeMatch(text: string, from: nat, span: Span)
    requires from <= span.index && IsMatch(text, span)
    ensures !NoMatchFrom(text, from, span.index + 1)
  {
  }

  lemma FirstIsUnique(text: string, from: nat, a: Span, b: Span)
    requires from <= a.index && IsMatch(text, a) && NoMatchFrom(text, from, a.index)
    requires from <= b.index && IsMatch(text, b) && NoMatchFrom(text, from, b.index)
    ensures a == b
  {
    MatchIsUnique(text, a, if b.index == a.index then b else a);
  }

  /** The parts that a list of matches cuts the text into, the marked ones numbered in order. */
  function Pieces(text: string, from: nat, key: nat, spans: seq<Span>): seq<Part>
    decreases |spans|
  {
    if spans == [] then RawPart(text, from, |text|)
    else RawPart(text, from, spans[0].index) + [MarkedPart(text, spans[0], key)]
         + Pieces(text, spans[0].End(), key + 1, spans[1..])
  }

  /** The rendered parts are those of the leftmost shortest matches. */
  lemma {:induction false} PartsOfLeftmostShortest(text: string, from: nat, key: nat, spans: seq<Span>)
    requires from <= |text| && LeftmostShortest(text, from, spans)
    ensures Parts(text, from, key) == Pieces(text, from, key, spans)
    decreases |spans|
  {
    hide IsMatch, NoMatchFrom, RawPart, MarkedPart;
    SpansAreLeftmostShortest(text, from, spans);
    ExecIsLeftmost(text, from);
    if Exec(text, from).Some? {
      MatchConsumes(text, Exec(text, from).value);
      PartsOfLeftmostShortest(text, spans[0].End(), key + 1, spans[1..]);
    }
  }

  function Source(part: Part): string {
    match part
    case Raw(text) => text
    case Strong(_, text) => STRONG + text + STRONG
    case Em(_, text) => EM + text + EM
  }

  function Unrender(parts: seq<Part>): string {
    if parts == [] then "" else Source(parts[0]) + Unrender(parts[1..])
  }

  lemma {:induction false} UnrenderConcat(a: seq<Part>, b: seq<Part>)
    ensures Unrender(a + b) == Unrender(a) + Unrender(b)
  {
    hide Source;
    if a == [] {
      assert a + b == b;
    } else {
      UnrenderConcat(a[1..], b);
      assert (a + b)[1..] == a[1..] + b;
      Regroup(Source(a[0]), Unrender(a[1..]), Unrender(b));
    }
  }

  lemma UnrenderMarked(text: string, span: Span, key: nat)
    requires IsMatch(text, span)
    ensures Unrender([MarkedPart(text, span, key)]) == text[span.index..span.End()]
  {
    MatchConsumes(text, span);
    var part := MarkedPart(text, span, key);
    CutThrice(text, span.index, span.Start(), span.close, span.End());
    assert [part][1..] == [] && Unrender([part]) == Source(part) + "";
  }

  lemma CutThrice(text: string, i: nat, j: nat, k: nat, l: nat)
    requires i <= j <= k <= l <= |text|
    ensures text[i..l] == text[i..j] + text[j..k] + text[k..l]
  {
  }

  lemma CutTwice(text: string, i: nat, j: nat, k: nat)
    requires i <= j <= k <= |text|
    ensures text[i..] == text[i..j] + text[j..k] + text[k..]
  {
  }

  /** Rendering loses nothing: the marked parts wrapped in their marks again, and the raw ones, spell the source. */
  lemma {:induction false} RenderingIsLossless(text: string, from: nat, key: nat)
    requires from <= |text|
    ensures Unrender(Parts(text, from, key)) == text[from..]
    decreases |text| - from
  {
    hide IsMatch, NoMatchFrom, Exec, Unrender, RawPart, MarkedPart;
    ExecIsLeftmost(text, from);
    match Exec(text, from) {
      case None => UnrenderRaw(text, from, |text|);
      case Some(span) =>
        MatchConsumes(text, span);
        UnrenderRaw(text, from, span.index);
        UnrenderMarked(text, span, key);
        RenderingIsLossless(text, span.End(), key + 1);
        var marked := [MarkedPart(text, span, key)];
        UnrenderConcat(RawPart(text, from, span.index), marked);
        UnrenderConcat(RawPart(text, from, span.index) + marked, Parts(text, span.End(), key + 1));
        CutTwice(text, from, span.index, span.End());
    }
  }

  lemma UnrenderRaw(text: string, i: nat, j: nat)
    requires i <= j <= |text|
    ensures Unrender(RawPart(text, i, j)) == text[i..j]
  {
  }

  // ----- What the marks mean -----

  /** A match lies on one line: its text has none of the four line terminators. */
  lemma MatchOnOneLine(text: string, span: Span)
    requires IsMatch(text, span)
    ensures span.Start() <= span.close <= |text|
    ensures forall k :: span.Start() <= k < span.close ==> text[k] !in ['\n', '\r', '\U{2028}', '\U{2029}']
    ensures span.mark == "**" || span.mark == "*"
  {
  }

  /** Plain text on one line, without asterisks. */
  predicate PlainLine(inner: string) {
    inner != "" && forall k :: 0 <= k < |inner| ==> inner[k] !in ['*', '\n', '\r', '\U{2028}', '\U{2029}']
  }

  /** The pieces of a marked text, character by character. */
  lemma MarkedText(text: string, mark: string, inner: string)
    requires text == mark + inner + mark
    ensures var close := |mark| + |inner|;
            && text[0..|mark|] == mark && text[close..close + |mark|] == mark && |text| == close + |mark|
            && forall k :: |mark| <= k < close ==> text[k] == inner[k - |mark|]
  {
  }

  lemma WholeMatch(text: string, mark: string, inner: string)
    requires PlainLine(inner) && text == mark + inner + mark && (mark == "*" || mark == "**")
    ensures Matches(text, 0, mark, |mark| + |inner|)
  {
    MarkedText(text, mark, inner);
  }

  lemma NoShorterMatch(text: string, mark: string, inner: string, close: nat)
    requires PlainLine(inner) && text == mark + inner + mark && (mark == "*" || mark == "**")
    requires close < |mark| + |inner|
    ensures !Matches(text, 0, mark, close)
  {
    MarkedText(text, mark, inner);
    AtChar(text, mark, close, 0);
  }

  lemma NoStrongMatch(text: string, inner: string, close: nat)
    requires PlainLine(inner) && text == "*" + inner + "*"
    ensures !Matches(text, 0, "**", close)
  {
    MarkedText(text, "*", inner);
    AtChar(text, "**", 0, 1);
  }

  lemma OnlyMatch(text: string, span: Span, inner: string)
    requires PlainLine(inner) && text == span.mark + inner + span.mark
    requires span.mark == "*" || span.mark == "**"
    requires span.index == 0 && span.close == |span.mark| + |inner|
    ensures LeftmostShortest(text, 0, [span])
  {
    hide Matches, PlainLine;
    WholeMatch(text, span.mark, inner);
    forall close: nat | close < span.close ensures !Matches(text, 0, span.mark, close) {
      NoShorterMatch(text, span.mark, inner, close);
    }
    if span.mark == "*" {
      forall close: nat ensures !Matches(text, 0, STRONG, close) {
        NoStrongMatch(text, inner, close);
      }
    }
    assert IsMatch(text, span);
    NoMatchAtEnd(text, span.End());
    assert [span][1..] == [];
  }

  lemma NoMatchAtEnd(text: string, from: nat)
    requires from >= |text|
    ensures forall j: nat :: NoMatchFrom(text, from, j)
  {
    ExecIsLeftmost(text, from);
  }

  /** Single asterisks make emphasis and double ones make it strong. */
  lemma MarksMean(inner: string)
    requires PlainLine(inner)
    ensures Parts("*" + inner + "*", 0, 0) == [Em(0, inner)]
    ensures Parts("**" + inner + "**", 0, 0) == [Strong(0, inner)]
  {
    MarkMeans(inner, "*");
    MarkMeans(inner, "**");
  }

  lemma MarkMeans(inner: string, mark: string)
    requires PlainLine(inner) && (mark == "*" || mark == "**")
    ensures Parts(mark + inner + mark, 0, 0) == [if mark == "**" then Strong(0, inner) else Em(0, inner)]
  {
    var text := mark + inner + mark;
    var span := Span(0, mark, |mark| + |inner|);
    OnlyMatch(text, span, inner);
    PartsOfLeftmostShortest(text, 0, 0, [span]);
    assert [span][1..] == [] && text[|mark|..span.close] == inner;
  }

  /** The keys of the marked parts, in order. */
  function Keys(parts: seq<Part>): seq<nat> {
    if parts == [] then [] else KeyOf(parts[0]) + Keys(parts[1..])
  }

  function KeyOf(part: Part): seq<nat> {
    if part.Raw? then [] else [part.key]
  }

  lemma {:induction false} KeysConcat(a: seq<Part>, b: seq<Part>)
    ensures Keys(a + b) == Keys(a) + Keys(b)
  {
    hide KeyOf;
    if a == [] {
      assert a + b == b;
    } else {
      KeysConcat(a[1..], b);
      assert (a + b)[1..] == a[1..] + b;
      Assoc(KeyOf(a[0]), Keys(a[1..]), Keys(b));
    }
  }

  lemma KeysStep(raw: seq<Part>, marked: Part, rest: seq<Part>)
    requires !marked.Raw? && raw != [] ==> raw[0].Raw? && |raw| == 1
    requires !marked.Raw?
    ensures Keys(raw + [marked] + rest) == [marked.key] + Keys(rest)
  {
    KeysConcat(raw + [marked], rest);
    KeysConcat(raw, [marked]);
    assert [marked][1..] == [] && (raw != [] ==> raw[1..] == []);
  }

  predicate CountsUp(keys: seq<nat>, key: nat) {
    forall i :: 0 <= i < |keys| ==> keys[i] == key + i
  }

  lemma CountsUpFrom(key: nat, rest: seq<nat>)
    requires CountsUp(rest, key + 1)
    ensures CountsUp([key] + rest, key)
  {
  }

  /** Sibling elements get the keys 0, 1, 2 and so on. */
  lemma {:induction false} KeysCountUp(text: string, from: nat, key: nat)
    requires from <= |text|
    ensures CountsUp(Keys(Parts(text, from, key)), key)
    decreases |text| - from
  {
    hide Exec, Keys, CountsUp;
    RawHasNoKey(text, from, |text|);
    NothingCounted(key);
    if Exec(text, from).Some? {
      var span := Exec(text, from).value;
      if from < span.End() <= |text| {
        KeysCountUp(text, span.End(), key + 1);
        KeysStep(RawPart(text, from, span.index), MarkedPart(text, span, key), Parts(text, span.End(), key + 1));
        CountsUpFrom(key, Keys(Parts(text, span.End(), key + 1)));
      }
    }
  }

  lemma NothingCounted(key: nat)
    ensures CountsUp([], key)
  {
  }

  lemma RawHasNoKey(text: string, i: nat, j: nat)
    ensures Keys(RawPart(text, i, j)) == [] && Keys([]) == []
  {
    assert RawPart(text, i, j) != [] ==> RawPart(text, i, j)[1..] == [];
  }
}
