/** The served shell: its configuration script and accent style, where they go, and what that does to the content
    security policy (internal/webui/webui.go). */
module Shell {
  import opened Wrappers
  import opened Strings
  import opened ScriptScan
  import opened ConfigJson

  const HEAD := "<head>"
  const HEAD_END := "</head>"
  const SCRIPT_TAG := "\n    <script>"
  const ASSIGNMENT := "window.__ATRIUM__="

  datatype ShellConfig = ShellConfig(
    brandName: string, brandSub: string, defaultTheme: string, accentColor: string,
    maxUploadSize: int, sessionIdleTtl: int)
  {
    /** What start-up enforces for the accent. */
    predicate Valid() {
      accentColor == "" || IsHexColor(accentColor)
    }
  }

  predicate IsHexColor(s: string) {
    && |s| - 1 in [3, 4, 6, 8]
    && s[0] == '#'
    && forall i :: 1 <= i < |s| ==> HexValue(s[i]).Some?
  }

  function OptionalText(name: string, text: string): seq<Member> {
    if text == "" then [] else [(name, Str(text))]
  }

  function OptionalNumber(name: string, n: int): seq<Member> {
    if n == 0 then [] else [(name, Num(n))]
  }

  /** The members encoded: unset fields are left out, and the accent is never one of them. */
  function Members(cfg: ShellConfig): seq<Member> {
    OptionalText("brandName", cfg.brandName)
    + OptionalText("brandSub", cfg.brandSub)
    + OptionalText("defaultTheme", cfg.defaultTheme)
    + OptionalNumber("maxUploadSize", cfg.maxUploadSize)
    + OptionalNumber("sessionIdleTtl", cfg.sessionIdleTtl)
  }

  function ScriptBody(cfg: ShellConfig): string {
    ASSIGNMENT + PrintObject(Members(cfg))
  }

  function ConfigScript(cfg: ShellConfig): string {
    if PrintObject(Members(cfg)) == "{}" then "" else SCRIPT_TAG + ScriptBody(cfg) + CLOSE
  }

  type Declaration = (string, string)

  /** A six-digit colour gets a tint of about an eighth. */
  function Tint(accent: string): string {
    if |accent| == 7 then accent + "1f" else accent
  }

  /** The theme tokens the accent overrides. */
  function Tokens(accent: string): seq<Declaration> {
    [("--primary", accent), ("--primary-hover", accent), ("--accent-foreground", accent), ("--ring", accent),
     ("--accent", Tint(accent))]
  }

  function PrintDeclarations(tokens: seq<Declaration>): string {
    if tokens == [] then ""
    else tokens[0].0 + ":" + tokens[0].1 + if |tokens| == 1 then "" else ";" + PrintDeclarations(tokens[1..])
  }

  function AccentRule(accent: string): string {
    ":root{" + PrintDeclarations(Tokens(accent)) + "}"
  }

  function AccentStyle(accent: string): string {
    if accent == "" then "" else "\n    <style>" + AccentRule(accent) + "</style>"
  }

  function SpliceAfter(s: string, anchor: string, ins: string): string
    requires anchor != ""
  {
    match Find(s, anchor)
    case None => s
    case Some(i) => s[..i + |anchor|] + ins + s[i + |anchor|..]
  }

  function SpliceBefore(s: string, anchor: string, ins: string): string
    requires anchor != ""
  {
    match Find(s, anchor)
    case None => s
    case Some(i) => s[..i] + ins + s[i..]
  }

  // ----- Where the parts go -----

  /** The parts before and between a page's first head tags, which both stand in text, outside every script element. */
  predicate HeadsInText(before: string, mid: string) {
    && !Contains(before, HEAD) && !Contains(before + HEAD, HEAD_END) && !Contains(mid, HEAD_END)
    && InText(before) && InText(mid)
  }

  function Page(before: string, mid: string, after: string): string {
    before + HEAD + (mid + HEAD_END + after)
  }

  lemma SplicedAfter(before: string, anchor: string, rest: string, ins: string)
    requires anchor != "" && anchor[0] !in anchor[1..] && !Contains(before, anchor)
    ensures SpliceAfter(before + anchor + rest, anchor, ins) == before + anchor + ins + rest
  {
    FindAfter(before, anchor, rest);
    Halves(before + anchor, rest);
  }

  lemma SplicedBefore(before: string, anchor: string, rest: string, ins: string)
    requires anchor != "" && anchor[0] !in anchor[1..] && !Contains(before, anchor)
    ensures SpliceBefore(before + anchor + rest, anchor, ins) == before + ins + (anchor + rest)
  {
    FindAfter(before, anchor, rest);
    Regroup(before, anchor, rest);
    Halves(before, anchor + rest);
  }

  lemma Halves(a: string, b: string)
    ensures (a + b)[..|a|] == a && (a + b)[|a|..] == b
  {
  }

  lemma NothingSpliced(s: string, anchor: string)
    requires anchor != ""
    ensures SpliceAfter(s, anchor, "") == s && SpliceBefore(s, anchor, "") == s
  {
  }

  /** The served page; splicing an empty part changes nothing. */
  function Injected(index: string, cfg: ShellConfig): string {
    SpliceBefore(SpliceAfter(index, HEAD, ConfigScript(cfg)), HEAD_END, AccentStyle(cfg.accentColor))
  }

  method InjectConfig(index: string, cfg: ShellConfig) returns (s: string)
    ensures s == Injected(index, cfg)
  {
    s := index;
    var script := ConfigScript(cfg);
    if script != "" {
      s := SpliceAfter(s, HEAD, script);
    } else {
      NothingSpliced(s, HEAD);
    }
    var style := AccentStyle(cfg.accentColor);
    if style != "" {
      s := SpliceBefore(s, HEAD_END, style);
    } else {
      NothingSpliced(s, HEAD_END);
    }
  }

  // ----- The parts are harmless -----

  lemma PatternFacts()
    ensures HEAD[0] !in HEAD[1..] && HEAD_END[0] !in HEAD_END[1..] && HEAD[|HEAD| - 1] !in HEAD_END[..|HEAD_END| - 1]
    ensures HEAD[0] !in OPEN[1..] && HEAD_END[0] !in OPEN[1..] && '\n' !in OPEN && '>' !in OPEN
    ensures '>' !in HEAD_END[..|HEAD_END| - 1] && '<' !in HEAD_END[1..]
  {
    assert HEAD == "<head>" && HEAD[1..] == "head>" && HEAD_END[1..] == "/head>" && HEAD_END[..6] == "</head";
    assert OPEN == "<script" && OPEN[1..] == "script";
  }

  /** The injected element: its values cannot close it. */
  function ConfigElement(cfg: ShellConfig): Script {
    Script("\n    ", "", ScriptBody(cfg))
  }

  lemma AssignmentHasNoAngle()
    ensures !HasAngle(ASSIGNMENT)
  {
    assert ASSIGNMENT == "window.__ATRIUM__=";
  }

  lemma NoAngleJoined(a: string, b: string)
    requires !HasAngle(a) && !HasAngle(b)
    ensures !HasAngle(a + b)
  {
  }

  lemma BodyHasNoAngle(cfg: ShellConfig)
    ensures !HasAngle(ScriptBody(cfg))
  {
    AssignmentHasNoAngle();
    PrintedIsInert(Members(cfg));
    NoAngleJoined(ASSIGNMENT, PrintObject(Members(cfg)));
  }

  lemma PlainScript(lead: string, body: string)
    requires !HasAngle(lead) && !HasAngle(body)
    ensures WellFormed(Script(lead, "", body))
  {
    NotWithout(lead, OPEN, 0);
    NotWithout(body, CLOSE, 0);
  }

  lemma BareTagIsInline(script: Script)
    requires script.attrs == ""
    ensures Inline(script)
  {
    assert OPEN + "" == OPEN && '=' !in OPEN;
    NotWithout(OPEN, "src=", 3);
  }

  lemma ConfigElementWellFormed(cfg: ShellConfig)
    ensures WellFormed(ConfigElement(cfg)) && Inline(ConfigElement(cfg))
  {
    hide WellFormed, Inline, ScriptBody;
    BodyHasNoAngle(cfg);
    PlainScript("\n    ", ScriptBody(cfg));
    BareTagIsInline(ConfigElement(cfg));
  }

  lemma PlainTag()
    ensures "\n    " + OPEN + "" + ">" == SCRIPT_TAG
    ensures SCRIPT_TAG[0] == '\n' && SCRIPT_TAG[|SCRIPT_TAG| - 1] == '>' && '/' !in SCRIPT_TAG
    ensures CLOSE[0] == '<' && CLOSE[|CLOSE| - 1] == '>' && 'h' !in CLOSE
  {
    assert OPEN == "<script" && SCRIPT_TAG == "\n    <script>" && CLOSE == "</script>";
  }

  lemma ScriptIsElement(cfg: ShellConfig)
    requires ConfigScript(cfg) != ""
    ensures ConfigScript(cfg) == PrintScript(ConfigElement(cfg))
  {
    hide ScriptBody;
    PlainTag();
  }

  /** The spliced parts as text: they end with a tag, and neither contains the head's closing tag. */
  predicate Harmless(part: string) {
    && (part == "" || (part[0] == '\n' && part[|part| - 1] == '>'))
    && !Contains(part, HEAD_END)
  }

  lemma NothingIsHarmless()
    ensures Harmless("") && !Contains("", OPEN)
  {
    NotWithout("", HEAD_END, 0);
    NotWithout("", OPEN, 0);
  }

  lemma TaggedIsHarmless(open: string, inner: string, close: string)
    requires open != "" && open[0] == '\n' && open[|open| - 1] == '>' && '/' !in open
    requires !HasAngle(inner)
    requires close != "" && close[0] == '<' && close[|close| - 1] == '>' && 'h' !in close
    ensures Harmless(open + inner + close)
  {
    PatternFacts();
    NotWithout(open, HEAD_END, 1);
    NotWithout(inner, HEAD_END, 0);
    NotWithout(close, HEAD_END, 2);
    ContainsPast(inner, close, HEAD_END);
    ContainsPast(open, inner + close, HEAD_END);
    Regroup(open, inner, close);
  }

  lemma ScriptIsHarmless(cfg: ShellConfig)
    ensures Harmless(ConfigScript(cfg))
  {
    hide ScriptBody, Harmless;
    BodyHasNoAngle(cfg);
    PlainTag();
    TaggedIsHarmless(SCRIPT_TAG, ScriptBody(cfg), CLOSE);
    NothingIsHarmless();
  }

  lemma HexColorHasNoAngle(accent: string)
    requires IsHexColor(accent)
    ensures !HasAngle(accent)
  {
    assert forall c :: HexValue(c).Some? ==> c != '<' && c != '>';
  }

  lemma {:induction false} DeclarationsHaveNoAngle(tokens: seq<Declaration>)
    requires forall i :: 0 <= i < |tokens| ==> !HasAngle(tokens[i].0) && !HasAngle(tokens[i].1)
    ensures !HasAngle(PrintDeclarations(tokens))
  {
    if |tokens| > 0 {
      DeclarationsHaveNoAngle(tokens[1..]);
    }
  }

  lemma NamesHaveNoAngle()
    ensures !HasAngle("--primary") && !HasAngle("--primary-hover") && !HasAngle("--accent-foreground")
    ensures !HasAngle("--ring") && !HasAngle("--accent")
  {
  }

  lemma AccentHasNoAngle(accent: string)
    requires IsHexColor(accent)
    ensures !HasAngle(AccentRule(accent))
  {
    hide IsHexColor, PrintDeclarations;
    HexColorHasNoAngle(accent);
    NoAngleJoined(accent, "1f");
    NamesHaveNoAngle();
    DeclarationsHaveNoAngle(Tokens(accent));
  }

  lemma StyleIsHarmless(accent: string)
    requires accent == "" || IsHexColor(accent)
    ensures Harmless(AccentStyle(accent)) && !Contains(AccentStyle(accent), OPEN)
  {
    PatternFacts();
    NothingIsHarmless();
    if accent != "" {
      AccentHasNoAngle(accent);
      TaggedIsHarmless("\n    <style>", AccentRule(accent), "</style>");
      NotWithout("\n    <style>", OPEN, 2);
      NotWithout(AccentRule(accent), OPEN, 0);
      NotWithout("</style>", OPEN, 2);
      ContainsPast(AccentRule(accent), "</style>", OPEN);
      ContainsPast("\n    <style>", AccentRule(accent) + "</style>", OPEN);
      Regroup("\n    <style>", AccentRule(accent), "</style>");
    }
  }

  /** The declarations a style sheet reader finds in a rule's braces. */
  function ReadDeclarations(text: string): seq<Declaration>
    decreases |text|
  {
    match Cut(text, ":")
    case None => []
    case Some((name, rest)) =>
      match Cut(rest, ";")
      case None => [(name, rest)]
      case Some((value, more)) => [(name, value)] + ReadDeclarations(more)
  }

  predicate Plain(token: Declaration) {
    ':' !in token.0 && ';' !in token.1
  }

  lemma ReadLast(name: string, value: string)
    requires Plain((name, value))
    ensures ReadDeclarations(name + ":" + value) == [(name, value)]
  {
    NotWithout(name, ":", 0);
    NotWithout(value, ";", 0);
    CutIs(name, ":", value);
  }

  lemma ReadNext(name: string, value: string, more: string)
    requires Plain((name, value))
    ensures ReadDeclarations(name + ":" + (value + ";" + more)) == [(name, value)] + ReadDeclarations(more)
  {
    NotWithout(name, ":", 0);
    NotWithout(value, ";", 0);
    CutIs(value, ";", more);
    CutIs(name, ":", value + ";" + more);
  }

  lemma {:induction false} ReadPrintedDeclarations(tokens: seq<Declaration>)
    requires tokens != [] && forall i :: 0 <= i < |tokens| ==> Plain(tokens[i])
    ensures ReadDeclarations(PrintDeclarations(tokens)) == tokens
  {
    hide ReadDeclarations;
    var (name, value) := tokens[0];
    if |tokens| == 1 {
      ReadLast(name, value);
      assert tokens == [tokens[0]] && name + ":" + value + "" == name + ":" + value;
    } else {
      var more := PrintDeclarations(tokens[1..]);
      ReadPrintedDeclarations(tokens[1..]);
      ReadNext(name, value, more);
      Regroup(name + ":", value, ";" + more);
      Regroup(value, ";", more);
      assert tokens == [tokens[0]] + tokens[1..];
    }
  }

  lemma HexColorIsPlain(accent: string)
    requires IsHexColor(accent)
    ensures ':' !in accent && ';' !in accent
  {
    assert forall c :: HexValue(c).Some? ==> c != ':' && c != ';';
  }

  lemma TintIsHex(accent: string)
    requires IsHexColor(accent)
    ensures IsHexColor(Tint(accent))
  {
  }

  lemma NamesArePlain()
    ensures ':' !in "--primary" && ':' !in "--primary-hover" && ':' !in "--accent-foreground" && ':' !in "--ring"
            && ':' !in "--accent"
  {
  }

  /** The style sets the five theme tokens on the root, four to the accent itself and one to its tint, which is a colour,
      too: with an alpha of 1f behind six digits, and the accent as it is otherwise. */
  lemma AccentSetsTokens(accent: string)
    requires IsHexColor(accent)
    ensures var tint := Tint(accent);
            && IsHexColor(tint) && (|accent| == 7 ==> tint == accent + "1f") && (|accent| != 7 ==> tint == accent)
            && exists rule: string ::
                 && AccentStyle(accent) == "\n    <style>" + (":root{" + rule + "}") + "</style>"
                 && ReadDeclarations(rule)
                    == [("--primary", accent), ("--primary-hover", accent), ("--accent-foreground", accent),
                        ("--ring", accent), ("--accent", tint)]
  {
    hide IsHexColor, ReadDeclarations, PrintDeclarations;
    TintIsHex(accent);
    HexColorIsPlain(accent);
    HexColorIsPlain(Tint(accent));
    NamesArePlain();
    ReadPrintedDeclarations(Tokens(accent));
    assert AccentStyle(accent) == "\n    <style>" + (":root{" + PrintDeclarations(Tokens(accent)) + "}") + "</style>" by {
      ColourIsNotEmpty(accent);
    }
  }

  lemma ColourIsNotEmpty(accent: string)
    requires IsHexColor(accent)
    ensures accent != ""
  {
  }

  /** A page without the tags is served as it is, and so is one whose configuration sets nothing. */
  lemma NothingToInject(index: string, cfg: ShellConfig)
    ensures !Contains(index, "<head>") && !Contains(index, "</head>") ==> Injected(index, cfg) == index
    ensures cfg == ShellConfig("", "", "", "", 0, 0) ==> Injected(index, cfg) == index
  {
    if cfg == ShellConfig("", "", "", "", 0, 0) {
      assert ConfigScript(cfg) == "" && AccentStyle(cfg.accentColor) == "";
      NothingSpliced(index, HEAD);
      NothingSpliced(index, HEAD_END);
    }
  }

  // ----- The served page -----

  lemma NoEarlierHeadEnd(head: string, script: string, mid: string)
    requires head != "" && head[|head| - 1] == '>' && !Contains(head, HEAD_END)
    requires Harmless(script) && !Contains(mid, HEAD_END)
    ensures !Contains(head + script + mid, HEAD_END)
  {
    PatternFacts();
    ContainsPast(script, mid, HEAD_END);
    ContainsPast(head, script + mid, HEAD_END);
    Regroup(head, script, mid);
  }

  lemma Reassociate(head: string, script: string, mid: string, style: string, rest: string)
    ensures head + script + mid + style + rest == head + script + (mid + style + rest)
  {
  }

  lemma Rejoin(a: string, mid: string, anchor: string, after: string)
    ensures a + (mid + anchor + after) == a + mid + anchor + after
  {
  }

  /** Each part goes exactly to its head tag, and the page is otherwise kept. */
  lemma InjectedParts(before: string, mid: string, after: string, cfg: ShellConfig)
    requires HeadsInText(before, mid) && cfg.Valid()
    ensures Injected(Page(before, mid, after), cfg)
         == before + HEAD + ConfigScript(cfg) + (mid + AccentStyle(cfg.accentColor) + (HEAD_END + after))
  {
    hide ConfigScript, AccentStyle, Harmless, Contains, SpliceAfter, SpliceBefore;
    var script, style := ConfigScript(cfg), AccentStyle(cfg.accentColor);
    PatternFacts();
    ScriptIsHarmless(cfg);
    SplicedAfter(before, HEAD, mid + HEAD_END + after, script);
    Rejoin(before + HEAD + script, mid, HEAD_END, after);
    NoEarlierHeadEnd(before + HEAD, script, mid);
    SplicedBefore(before + HEAD + script + mid, HEAD_END, after, style);
    Reassociate(before + HEAD, script, mid, style, HEAD_END + after);
  }

  lemma HashesFromHead(before: string, rest: string, sha: string -> string)
    requires InText(before)
    ensures Hashes(before + HEAD + rest, sha) == Hashes(before, sha) + Hashes(rest, sha)
  {
    hide Hashes, InText;
    PatternFacts();
    NotWithout(HEAD, OPEN, 1);
    AfterText(HEAD, rest, sha);
    HashesConcat(before, HEAD + rest, sha);
    Regroup(before, HEAD, rest);
  }

  lemma HashesWithStyle(mid: string, style: string, rest: string, sha: string -> string)
    requires InText(mid) && Harmless(style) && !Contains(style, OPEN) && rest != "" && rest[0] == '<'
    ensures Hashes(mid + style + rest, sha) == Hashes(mid + rest, sha)
  {
    hide Hashes, InText;
    PatternFacts();
    AfterText(style, rest, sha);
    HashesConcat(mid, style + rest, sha);
    HashesConcat(mid, rest, sha);
    Regroup(mid, style, rest);
  }

  lemma HashesWithScript(cfg: ShellConfig, rest: string, sha: string -> string)
    ensures Hashes(ConfigScript(cfg) + rest, sha)
         == (if ConfigScript(cfg) == "" then [] else [Token(ScriptBody(cfg), sha)]) + Hashes(rest, sha)
  {
    hide Hashes, ConfigScript, ScriptBody, WellFormed, Inline, PrintScript, Token;
    if ConfigScript(cfg) != "" {
      ScriptIsElement(cfg);
      ConfigElementWellFormed(cfg);
      StepOver(ConfigElement(cfg), rest, sha);
    } else {
      assert ConfigScript(cfg) + rest == rest;
    }
  }

  /** The policy of the served shell: when both head tags stand in text, the tokens are those of the original page with
      the configuration script's own token inserted at its place, whatever the configured values are. */
  lemma InjectedHashes(before: string, mid: string, after: string, cfg: ShellConfig, sha: string -> string)
    requires HeadsInText(before, mid) && cfg.Valid()
    ensures var page := Page(before, mid, after);
            var rest := Hashes(mid + HEAD_END + after, sha);
            && Hashes(page, sha) == Hashes(before, sha) + rest
            && Hashes(Injected(page, cfg), sha)
               == Hashes(before, sha) + ((if ConfigScript(cfg) == "" then [] else [Token(ScriptBody(cfg), sha)]) + rest)
  {
    hide Hashes, ConfigScript, AccentStyle, ScriptBody, Harmless, Contains, Token, Injected;
    var script, style, rest := ConfigScript(cfg), AccentStyle(cfg.accentColor), HEAD_END + after;
    HashesFromHead(before, mid + HEAD_END + after, sha);
    InjectedParts(before, mid, after, cfg);
    StyleIsHarmless(cfg.accentColor);
    HashesWithStyle(mid, style, rest, sha);
    Regroup(mid, HEAD_END, after);
    HashesWithScript(cfg, mid + style + rest, sha);
    Regroup(before + HEAD, script, mid + style + rest);
    HashesFromHead(before, script + (mid + style + rest), sha);
  }

  /** With no script before the head, the configuration script's token comes first and the original list follows. */
  lemma ConfigHashFirst(before: string, mid: string, after: string, cfg: ShellConfig, sha: string -> string)
    requires HeadsInText(before, mid) && cfg.Valid() && !Contains(before, OPEN)
    ensures var page := Page(before, mid, after);
            Hashes(Injected(page, cfg), sha)
            == (if ConfigScript(cfg) == "" then [] else [Token(ScriptBody(cfg), sha)]) + Hashes(page, sha)
  {
    hide Hashes, Injected, Page, Token, ConfigScript, ScriptBody, InText, Contains;
    InjectedHashes(before, mid, after, cfg, sha);
    NoHashesInText(before, sha);
  }

  // ----- What the app reads -----

  /** A property of the object; a repeated name takes its last value. */
  function Property(o: seq<Member>, name: string): Option<Value> {
    if o == [] then None
    else if o[|o| - 1].0 == name then Some(o[|o| - 1].1)
    else Property(o[..|o| - 1], name)
  }

  function TextProperty(o: seq<Member>, name: string): string {
    match Property(o, name)
    case Some(Str(text)) => text
    case _ => ""
  }

  function NumberProperty(o: seq<Member>, name: string): int {
    match Property(o, name)
    case Some(Num(n)) => n
    case _ => 0
  }

  /** The settings as the app finds them, "" and 0 standing for an absent one. */
  function Settings(o: seq<Member>): ShellConfig {
    ShellConfig(TextProperty(o, "brandName"), TextProperty(o, "brandSub"), TextProperty(o, "defaultTheme"), "",
                NumberProperty(o, "maxUploadSize"), NumberProperty(o, "sessionIdleTtl"))
  }

  lemma AfterOptional(o: seq<Member>, last: seq<Member>, name: string)
    requires |last| <= 1
    ensures Property(o + last, name) == if last != [] && last[0].0 == name then Some(last[0].1) else Property(o, name)
  {
    if last == [] {
      assert o + last == o;
    } else {
      assert (o + last)[..|o|] == o;
    }
  }

  lemma PropertyOfMembers(cfg: ShellConfig, name: string)
    ensures Property(Members(cfg), name)
         == if cfg.sessionIdleTtl != 0 && name == "sessionIdleTtl" then Some(Num(cfg.sessionIdleTtl))
            else if cfg.maxUploadSize != 0 && name == "maxUploadSize" then Some(Num(cfg.maxUploadSize))
            else if cfg.defaultTheme != "" && name == "defaultTheme" then Some(Str(cfg.defaultTheme))
            else if cfg.brandSub != "" && name == "brandSub" then Some(Str(cfg.brandSub))
            else if cfg.brandName != "" && name == "brandName" then Some(Str(cfg.brandName))
            else None
  {
    var o1 := OptionalText("brandName", cfg.brandName);
    var o2 := o1 + OptionalText("brandSub", cfg.brandSub);
    var o3 := o2 + OptionalText("defaultTheme", cfg.defaultTheme);
    var o4 := o3 + OptionalNumber("maxUploadSize", cfg.maxUploadSize);
    AfterOptional([], o1, name);
    assert [] + o1 == o1;
    AfterOptional(o1, OptionalText("brandSub", cfg.brandSub), name);
    AfterOptional(o2, OptionalText("defaultTheme", cfg.defaultTheme), name);
    AfterOptional(o3, OptionalNumber("maxUploadSize", cfg.maxUploadSize), name);
    AfterOptional(o4, OptionalNumber("sessionIdleTtl", cfg.sessionIdleTtl), name);
  }

  lemma NamesDiffer()
    ensures "brandName" != "brandSub" && "brandName" != "defaultTheme" && "brandName" != "maxUploadSize"
    ensures "brandName" != "sessionIdleTtl" && "brandSub" != "defaultTheme" && "brandSub" != "maxUploadSize"
    ensures "brandSub" != "sessionIdleTtl" && "defaultTheme" != "maxUploadSize" && "defaultTheme" != "sessionIdleTtl"
    ensures "maxUploadSize" != "sessionIdleTtl"
  {
    assert |"brandName"| == 9 && |"brandSub"| == 8 && |"defaultTheme"| == 12 && |"maxUploadSize"| == 13
        && |"sessionIdleTtl"| == 14;
  }

  lemma SettingsOfMembers(cfg: ShellConfig)
    ensures Settings(Members(cfg)) == cfg.(accentColor := "")
  {
    hide Members, Property;
    NamesDiffer();
    PropertyOfMembers(cfg, "brandName");
    PropertyOfMembers(cfg, "brandSub");
    PropertyOfMembers(cfg, "defaultTheme");
    PropertyOfMembers(cfg, "maxUploadSize");
    PropertyOfMembers(cfg, "sessionIdleTtl");
  }

  /** The injected assignment's right-hand side reads back as the configured settings, whatever characters they are made
      of, and there is no script exactly when none of them is set. */
  lemma ConfigReadsBack(cfg: ShellConfig)
    ensures ScriptBody(cfg)[..|ASSIGNMENT|] == "window.__ATRIUM__="
    ensures var data := ScriptBody(cfg)[|ASSIGNMENT|..];
            ReadObject(data).Some? && Settings(ReadObject(data).value) == cfg.(accentColor := "")
    ensures ConfigScript(cfg) == ""
       <==> cfg == ShellConfig("", "", "", cfg.accentColor, 0, 0)
  {
    hide Members, Settings;
    Halves(ASSIGNMENT, PrintObject(Members(cfg)));
    ReadPrinted(Members(cfg));
    SettingsOfMembers(cfg);
    NoMembers(cfg);
    if Members(cfg) != [] {
      ReadPrinted([]);
    }
  }

  lemma NoMembers(cfg: ShellConfig)
    ensures Members(cfg) == [] <==> cfg == ShellConfig("", "", "", cfg.accentColor, 0, 0)
  {
  }
}
