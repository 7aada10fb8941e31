/** The inline-script scanner behind the content security policy, and the splicing of the shell's configuration
    (internal/webui/webui.go). */
module ScriptScan {
  import opened Wrappers
  import opened Strings

  const OPEN := "<script"
  const CLOSE := "</script>"

  /** A script element and the text before it; attrs is the rest of the opening tag. */
  datatype Script = Script(lead: string, attrs: string, body: string)

  /** A page as the scanner sees it: its complete script elements, then whatever is left. */
  datatype Page = Page(scripts: seq<Script>, tail: string)

  /** The first complete element and the text after it, given how its opening tag starts and ends and its closing tag. */
  function NextElement(html: string, name: string, end: string, close: string): Option<(Script, string)>
    requires name != "" && end != "" && close != ""
  {
    match Cut(html, name)
    case None => None
    case Some((lead, tag)) =>
      match Cut(tag, end)
      case None => None
      case Some((attrs, inner)) =>
        match Cut(inner, close)
        case None => None
        case Some((body, after)) => Some((Script(lead, attrs, body), after))
  }

  function NextScript(html: string): Option<(Script, string)> {
    NextElement(html, OPEN, ">", CLOSE)
  }

  function Parse(html: string): Page
    decreases |html|
  {
    match NextScript(html)
    case None => Page([], html)
    case Some((script, after)) =>
      var rest := Parse(after);
      Page([script] + rest.scripts, rest.tail)
  }

  function PrintScript(script: Script): string {
    script.lead + OPEN + script.attrs + ">" + script.body + CLOSE
  }

  function Print(page: Page): string
    decreases |page.scripts|
  {
    if page.scripts == [] then page.tail
    else PrintScript(page.scripts[0]) + Print(Page(page.scripts[1..], page.tail))
  }

  predicate WellFormed(script: Script) {
    !Contains(script.lead, OPEN) && !Contains(script.attrs, ">") && !Contains(script.body, CLOSE)
  }

  predicate WellFormedPage(page: Page) {
    (forall i :: 0 <= i < |page.scripts| ==> WellFormed(page.scripts[i])) && NextScript(page.tail).None?
  }

  /** External scripts carry a src attribute and need no hash. */
  predicate Inline(script: Script) {
    !Contains(OPEN + script.attrs, "src=")
  }

  /** The policy source that permits exactly this body. */
  function Token(body: string, sha: string -> string): string {
    "'sha256-" + sha(body) + "'"
  }

  function HashesOf(scripts: seq<Script>, sha: string -> string): seq<string> {
    if scripts == [] then []
    else (if Inline(scripts[0]) then [Token(scripts[0].body, sha)] else []) + HashesOf(scripts[1..], sha)
  }

  /** The policy tokens a page needs: one per inline script, in order. */
  function Hashes(html: string, sha: string -> string): seq<string> {
    HashesOf(Parse(html).scripts, sha)
  }

  lemma FirstCharactersStandAlone()
    ensures OPEN[0] !in OPEN[1..] && CLOSE[0] !in CLOSE[1..] && ">"[0] !in ">"[1..] && '>' !in OPEN
  {
    assert OPEN == "<script" && OPEN[1..] == "script" && CLOSE[1..] == "/script>";
  }

  lemma NextScriptPieces(html: string)
    requires NextScript(html).Some?
    ensures var (script, after) := NextScript(html).value;
            WellFormed(script) && html == PrintScript(script) + after
  {
    var (lead, tag) := Cut(html, OPEN).value;
    var (attrs, inner) := Cut(tag, ">").value;
    var (body, after) := Cut(inner, CLOSE).value;
    CutPieces(html, OPEN);
    CutPieces(tag, ">");
    CutPieces(inner, CLOSE);
    Reassemble(lead, OPEN, attrs, ">", body, CLOSE, after);
  }

  lemma Reassemble(a: string, b: string, c: string, d: string, e: string, f: string, g: string)
    ensures a + b + (c + d + (e + f + g)) == a + b + c + d + e + f + g
  {
  }

  lemma NextScriptIs(script: Script, after: string)
    requires WellFormed(script)
    ensures NextScript(PrintScript(script) + after) == Some((script, after))
  {
    FirstCharactersStandAlone();
    var inner := script.body + CLOSE + after;
    var tag := script.attrs + ">" + inner;
    Reassemble(script.lead, OPEN, script.attrs, ">", script.body, CLOSE, after);
    CutIs(script.lead, OPEN, tag);
    CutIs(script.attrs, ">", inner);
    CutIs(script.body, CLOSE, after);
  }

  /** Every page is taken apart losslessly, whatever it contains. */
  lemma {:induction false} PrintParse(html: string)
    ensures Print(Parse(html)) == html && WellFormedPage(Parse(html))
    decreases |html|
  {
    if NextScript(html).Some? {
      NextScriptPieces(html);
      var (script, after) := NextScript(html).value;
      PrintParse(after);
      var page := Parse(html);
      assert page.scripts[1..] == Parse(after).scripts;
    }
  }

  /** Every page printed from text and script elements is read back as those very elements. */
  lemma {:induction false} ParsePrint(page: Page)
    requires WellFormedPage(page)
    ensures Parse(Print(page)) == page
    decreases |page.scripts|
  {
    hide NextScript, PrintScript, WellFormed;
    if page.scripts != [] {
      var rest := Page(page.scripts[1..], page.tail);
      ParsePrint(rest);
      NextScriptIs(page.scripts[0], Print(rest));
    }
  }

  // ----- The scanner loop -----

  lemma Slices(s: string, i: nat, j: nat, k: nat)
    requires i + j + k <= |s|
    ensures s[i..][..j] == s[i..i + j] && s[i..][j + k..] == s[i + j + k..]
  {
  }

  lemma NoAngleInName()
    ensures !Contains(OPEN, ">")
  {
    FindIsFirst(OPEN, ">");
    if Find(OPEN, ">").Some? {
      AtChar(OPEN, ">", Find(OPEN, ">").value, 0);
    }
  }

  /** Looking for the end of the tag from its start or from the end of its name finds the same place. */
  lemma TagEnd(html: string, name: string, end: string, open: nat)
    requires name != "" && |end| == 1 && !Contains(name, end) && Find(html, name) == Some(open)
    ensures var tag := html[open + |name|..];
            && html[open..] == name + tag
            && Find(html[open..], end) == match Find(tag, end) case None => None case Some(i) => Some(|name| + i)
  {
    var tag := html[open + |name|..];
    FindIsFirst(html, name);
    var head := html[open..open + |name|];
    assert head == name;
    assert html[open..] == head + tag;
    assert end[1..] == "";
    FindPast(name, tag, end);
  }

  lemma TagPieces(html: string, name: string, o: nat, t: nat)
    requires |name| <= t && o + t + 1 <= |html| && html[o..] == name + html[o + |name|..]
    ensures var tag := html[o + |name|..];
            && html[o..o + t] == name + tag[..t - |name|]
            && html[o + t + 1..] == tag[t - |name| + 1..]
  {
    assert html[o..o + t] == html[o..][..t];
  }

  /** Where the scanner's three searches stop, as the pieces of the element they delimit. */
  lemma SearchesFindElement(html: string, name: string, end: string, close: string, o: nat, t: nat, c: nat)
    requires name != "" && |end| == 1 && close != "" && !Contains(name, end)
    requires Find(html, name) == Some(o) && Find(html[o..], end) == Some(t)
    requires Find(html[o + t + 1..], close) == Some(c)
    ensures NextElement(html, name, end, close).Some?
    ensures var (script, after) := NextElement(html, name, end, close).value;
            && name + script.attrs == html[o..o + t]
            && script.body == html[o + t + 1..][..c]
            && after == html[o + t + 1..][c + |close|..]
  {
    TagEnd(html, name, end, o);
    var tag := html[o + |name|..];
    TagPieces(html, name, o, t);
    assert Cut(html, name) == Some((html[..o], tag));
    assert Cut(tag, end) == Some((tag[..t - |name|], html[o + t + 1..]));
  }

  /** One of the scanner's searches comes up empty. */
  predicate Stops(html: string, name: string, end: string, close: string)
    requires name != "" && |end| == 1 && close != ""
  {
    match Find(html, name)
    case None => true
    case Some(o) =>
      match Find(html[o..], end)
      case None => true
      case Some(t) => Find(html[o + t + 1..], close).None?
  }

  lemma NoElement(html: string, name: string, end: string, close: string)
    requires name != "" && |end| == 1 && close != "" && !Contains(name, end) && Stops(html, name, end, close)
    ensures NextElement(html, name, end, close).None?
  {
    if Find(html, name).Some? {
      var o := Find(html, name).value;
      TagEnd(html, name, end, o);
      if Find(html[o..], end).Some? {
        TagPieces(html, name, o, Find(html[o..], end).value);
      }
    }
  }

  /** One round of the scanner: an inline element's token, before the tokens of the text after it. */
  lemma OneRound(html: string, o: nat, t: nat, start: nat, c: nat, sha: string -> string, hashes: seq<string>)
    requires Find(html, OPEN) == Some(o) && Find(html[o..], ">") == Some(t)
    requires start == o + t + 1 && Find(html[start..], CLOSE) == Some(c)
    ensures hashes + Hashes(html, sha)
         == (if Contains(html[o..o + t], "src=") then hashes else hashes + [Token(html[start..start + c], sha)])
            + Hashes(html[start + c + |CLOSE|..], sha)
  {
    hide Hashes, Contains, NextElement;
    NoAngleInName();
    SearchesFindElement(html, OPEN, ">", CLOSE, o, t, c);
    Slices(html, start, c, |CLOSE|);
    FirstElementCounts(html, sha, hashes);
  }

  lemma FirstElementCounts(html: string, sha: string -> string, hashes: seq<string>)
    requires NextScript(html).Some?
    ensures var (script, after) := NextScript(html).value;
            hashes + Hashes(html, sha)
            == (if Inline(script) then hashes + [Token(script.body, sha)] else hashes) + Hashes(after, sha)
  {
    var (script, after) := NextScript(html).value;
    var page := Parse(html);
    assert page.scripts[0] == script && page.scripts[1..] == Parse(after).scripts;
  }

  lemma LastRound(html: string, sha: string -> string)
    requires Stops(html, OPEN, ">", CLOSE)
    ensures Hashes(html, sha) == []
  {
    NoAngleInName();
    NoElement(html, OPEN, ">", CLOSE);
  }

  /** The loop on positions in the remaining text. */
  method InlineScriptHashes(html: string, sha: string -> string) returns (hashes: seq<string>)
    ensures hashes == Hashes(html, sha)
  {
    hide Hashes;
    hashes := [];
    var rest := html;
    while true
      invariant Hashes(html, sha) == hashes + Hashes(rest, sha)
      decreases |rest|
    {
      var open := Find(rest, OPEN);
      if open == None {
        LastRound(rest, sha);
        break;
      }
      var tagClose := Find(rest[open.value..], ">");
      if tagClose == None {
        LastRound(rest, sha);
        break;
      }
      var openTag := rest[open.value..open.value + tagClose.value];
      var contentStart := open.value + tagClose.value + 1;
      var end := Find(rest[contentStart..], CLOSE);
      if end == None {
        LastRound(rest, sha);
        break;
      }
      var content := rest[contentStart..contentStart + end.value];
      OneRound(rest, open.value, tagClose.value, contentStart, end.value, sha, hashes);
      rest := rest[contentStart + end.value + |CLOSE|..];
      if Contains(openTag, "src=") {
        continue;
      }
      hashes := hashes + ["'sha256-" + sha(content) + "'"];
    }
  }

  // ----- Pages put together from parts -----

  /** Scanning this text does not stop inside an element, so what follows it is scanned as text. */
  predicate InText(html: string) {
    !Contains(Parse(html).tail, OPEN)
  }

  /** The texts meet without forming a new opening tag. */
  predicate Apart(a: string, b: string) {
    a == "" || b == "" || a[|a| - 1] !in OPEN || b[0] !in OPEN[1..]
  }

  /** Text before an element only lengthens its lead. */
  lemma NextAfterText(a: string, b: string, name: string, end: string, close: string)
    requires name != "" && end != "" && close != "" && Blocks(a, b, name)
    ensures match NextElement(b, name, end, close)
            case None => NextElement(a + b, name, end, close).None?
            case Some((script, after)) =>
              NextElement(a + b, name, end, close) == Some((script.(lead := a + script.lead), after))
  {
    hide Find;
    FindPast(a, b, name);
    if Find(b, name).Some? {
      var o := Find(b, name).value;
      PastText(a, b, o, |name|);
      assert Cut(a + b, name) == Some((a + b[..o], b[o + |name|..]));
    }
  }

  lemma PastText(a: string, b: string, o: nat, n: nat)
    requires o + n <= |b|
    ensures (a + b)[..|a| + o] == a + b[..o] && (a + b)[|a| + o + n..] == b[o + n..]
  {
  }

  lemma ApartBlocks(a: string, b: string)
    requires !Contains(a, OPEN) && Apart(a, b)
    ensures Blocks(a, b, OPEN)
  {
    if a != "" && a[|a| - 1] in OPEN[..|OPEN| - 1] {
      assert a[|a| - 1] in OPEN;
    }
  }

  lemma AfterText(a: string, b: string, sha: string -> string)
    requires !Contains(a, OPEN) && Apart(a, b)
    ensures Hashes(a + b, sha) == Hashes(b, sha) && (InText(a + b) <==> InText(b))
  {
    ApartBlocks(a, b);
    NextAfterText(a, b, OPEN, ">", CLOSE);
    ContainsPast(a, b, OPEN);
    match NextScript(b) {
      case None =>
      case Some((script, after)) =>
        FirstElementCounts(b, sha, []);
        FirstElementCounts(a + b, sha, []);
    }
  }

  lemma WholeTail(a: string)
    requires NextScript(a).None?
    ensures InText(a) <==> !Contains(a, OPEN)
  {
  }

  lemma NoHashesInText(a: string, sha: string -> string)
    requires !Contains(a, OPEN)
    ensures Hashes(a, sha) == [] && InText(a)
  {
  }

  lemma StepOver(script: Script, after: string, sha: string -> string)
    requires WellFormed(script)
    ensures Hashes(PrintScript(script) + after, sha)
         == (if Inline(script) then [Token(script.body, sha)] else []) + Hashes(after, sha)
    ensures InText(PrintScript(script) + after) <==> InText(after)
  {
    NextScriptIs(script, after);
    FirstElementCounts(PrintScript(script) + after, sha, []);
  }

  lemma ApartRest(element: string, after: string, b: string)
    requires Apart(element + after, b)
    ensures Apart(after, b)
  {
  }

  /** What an element adds to the policy: nothing if its opening tag mentions a source, and otherwise exactly the source
      expression of its body's hash. */
  lemma ElementAdds(script: Script, after: string, sha: string -> string)
    requires WellFormed(script)
    ensures Hashes(PrintScript(script) + after, sha)
         == (if Contains("<script" + script.attrs, "src=") then [] else ["'sha256-" + sha(script.body) + "'"])
            + Hashes(after, sha)
  {
    hide Hashes, WellFormed, PrintScript;
    StepOver(script, after, sha);
  }

  /** Where a text is scanned to its end, the page it starts needs its tokens and then those of the rest. */
  lemma {:induction false} HashesConcat(a: string, b: string, sha: string -> string)
    requires InText(a) && Apart(a, b)
    ensures Hashes(a + b, sha) == Hashes(a, sha) + Hashes(b, sha) && (InText(a + b) <==> InText(b))
    decreases |a|
  {
    hide Hashes, InText, NextScript;
    if NextScript(a).None? {
      WholeTail(a);
      AfterText(a, b, sha);
      NoHashesInText(a, sha);
    } else {
      NextScriptPieces(a);
      var (script, after) := NextScript(a).value;
      StepOver(script, after, sha);
      ApartRest(PrintScript(script), after, b);
      Regroup(PrintScript(script), after, b);
      HashesConcat(after, b, sha);
      StepOver(script, after + b, sha);
    }
  }
}
