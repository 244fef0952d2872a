// Finding the next page in a Link header (section 5 of RFC 5988).
module LinkHeader {
  import opened Prelude
  import opened Text

  // ----- splitting at top level

  /** The entries of `s` when `entry` is the part of the current entry already read. */
  function SplitEntries(s: string, entry: string, depth: nat, inQuote: bool): seq<string>
    decreases |s|
  {
    if s == "" then [entry]
    else if s[0] == '\\' && inQuote && |s| > 1 then SplitEntries(s[2..], entry + s[..2], depth, inQuote)
    else if s[0] == ',' && depth == 0 && !inQuote then [entry] + SplitEntries(s[1..], "", depth, inQuote)
    else
      SplitEntries(s[1..], entry + [s[0]],
                   if s[0] == '<' && !inQuote then depth + 1
                   else if s[0] == '>' && !inQuote && depth > 0 then depth - 1
                   else depth,
                   if s[0] == '"' then !inQuote else inQuote)
  }

  method SplitLinkEntries(header: string) returns (entries: seq<string>)
    ensures entries == SplitEntries(header, "", 0, false)
  {
    entries := [];
    var depth, start, inQuote := 0, 0, false;
    var i := 0;
    while i < |header|
      invariant 0 <= start <= i <= |header| && 0 <= depth
      invariant entries + SplitEntries(header[i..], header[start..i], depth, inQuote)
          == SplitEntries(header, "", 0, false)
    {
      assert header[i..][1..] == header[i + 1..];
      assert header[start..i] + [header[i]] == header[start..i + 1];
      ghost var rest := SplitEntries(header[i..], header[start..i], depth, inQuote);
      match header[i] {
        case '<' =>
          if !inQuote {
            depth := depth + 1;
          }
        case '>' =>
          if !inQuote && depth > 0 {
            depth := depth - 1;
          }
        case '"' =>
          inQuote := !inQuote;
        case '\\' =>
          if inQuote && i + 1 < |header| {
            assert header[i..][2..] == header[i + 2..];
            assert header[start..i] + header[i..][..2] == header[start..i + 2];
            i := i + 1;
          }
        case ',' =>
          if depth == 0 && !inQuote {
            entries := entries + [header[start..i]];
            start := i + 1;
            assert header[start..i + 1] == "";
          }
        case _ =>
      }
      i := i + 1;
    }
    entries := entries + [header[start..]];
    assert header[start..] == header[start..i];
  }

  /** No text is lost: joining the entries with commas gives the header back. */
  lemma {:induction false} JoinEntries(s: string, entry: string, depth: nat, inQuote: bool)
    ensures SplitEntries(s, entry, depth, inQuote) != []
    ensures Join(SplitEntries(s, entry, depth, inQuote), ',') == entry + s
    decreases |s|
  {
    if s == "" {
    } else if s[0] == '\\' && inQuote && |s| > 1 {
      JoinEntries(s[2..], entry + s[..2], depth, inQuote);
    } else if s[0] == ',' && depth == 0 && !inQuote {
      JoinEntries(s[1..], "", depth, inQuote);
      var rest := SplitEntries(s[1..], "", depth, inQuote);
      assert ([entry] + rest)[1..] == rest;
      assert entry + "," + s[1..] == entry + s;
    } else {
      JoinEntries(s[1..], entry + [s[0]],
                  if s[0] == '<' && !inQuote then depth + 1
                  else if s[0] == '>' && !inQuote && depth > 0 then depth - 1
                  else depth,
                  if s[0] == '"' then !inQuote else inQuote);
      assert entry + [s[0]] + s[1..] == entry + s;
    }
  }

  lemma SplittingLosesNothing(header: string)
    ensures Join(SplitEntries(header, "", 0, false), ',') == header
  {
    JoinEntries(header, "", 0, false);
    assert "" + header == header;
  }

  /** The parameters of `s` when `param` is the part of the current parameter already read. */
  function SplitParams(s: string, param: string, inQuote: bool): seq<string>
    decreases |s|
  {
    if s == "" then [param]
    else if s[0] == '\\' && inQuote && |s| > 1 then SplitParams(s[2..], param + s[..2], inQuote)
    else if s[0] == ';' && !inQuote then [param] + SplitParams(s[1..], "", inQuote)
    else SplitParams(s[1..], param + [s[0]], if s[0] == '"' then !inQuote else inQuote)
  }

  // ----- one parameter

  function IndexOf(s: string, c: char): (i: int)
    ensures -1 <= i < |s|
    ensures 0 <= i ==> s[i] == c && forall j | 0 <= j < i :: s[j] != c
    ensures i < 0 ==> c !in s
  {
    if s == "" then -1
    else if s[0] == c then 0
    else
      var i := IndexOf(s[1..], c);
      if i < 0 then -1 else i + 1
  }

  function Lower(c: char): char {
    if 'A' <= c <= 'Z' then c - 'A' + 'a' else c
  }

  /** strings.EqualFold against a word whose letters have no case variants outside ASCII. */
  predicate EqualFold(s: string, word: string) {
    |s| == |word| && forall i | 0 <= i < |s| :: Lower(s[i]) == word[i]
  }

  function FieldsFrom(s: string, field: string): seq<string> {
    if s == "" then (if field == "" then [] else [field])
    else if IsSpace(s[0]) then (if field == "" then [] else [field]) + FieldsFrom(s[1..], "")
    else FieldsFrom(s[1..], field + [s[0]])
  }

  /** strings.Fields: the runs of characters that are not space. */
  function Fields(s: string): seq<string> {
    FieldsFrom(s, "")
  }

  predicate HasNextToken(value: string) {
    exists token | token in Fields(value) :: EqualFold(token, "next")
  }

  function Unquote(value: string): string {
    if |value| >= 2 && value[0] == '"' && value[|value| - 1] == '"' then value[1..|value| - 1] else value
  }

  predicate CheckParam(param: string) {
    CheckTrimmed(TrimSpace(param))
  }

  predicate CheckTrimmed(p: string) {
    var eq := IndexOf(p, '=');
    0 <= eq && EqualFold(TrimSpace(p[..eq]), "rel") && HasNextToken(Unquote(TrimSpace(p[eq + 1..])))
  }

  predicate AnyPasses(params: seq<string>, check: string -> bool) {
    params != [] && (check(params[0]) || AnyPasses(params[1..], check))
  }

  lemma {:induction false} AnyPassesAppend(params: seq<string>, more: seq<string>, check: string -> bool)
    ensures AnyPasses(params + more, check) <==> AnyPasses(params, check) || AnyPasses(more, check)
  {
    if params == [] {
      assert params + more == more;
    } else {
      AnyPassesAppend(params[1..], more, check);
      assert (params + more)[1..] == params[1..] + more;
    }
  }

  lemma AnyPassesOne(p: string, check: string -> bool)
    ensures AnyPasses([p], check) <==> check(p)
  {
    assert [p][1..] == [];
  }

  /** What the next parameter adds to a search that has found nothing yet. */
  lemma PassesNext(passed: seq<string>, p: string, rest: seq<string>, check: string -> bool)
    requires !AnyPasses(passed, check)
    ensures check(p) ==> AnyPasses(passed + ([p] + rest), check)
    ensures !check(p) ==> !AnyPasses(passed + [p], check)
  {
    AnyPassesAppend(passed, [p] + rest, check);
    AnyPassesAppend([p], rest, check);
    AnyPassesOne(p, check);
    AnyPassesAppend(passed, [p], check);
  }

  /** The scan of a parameter list, stopping at the first parameter that passes the check. */
  method ScanForParam(params: string, checkParam: string -> bool) returns (found: bool)
    ensures found <==> AnyPasses(SplitParams(params, "", false), checkParam)
  {
    var inQuote, start, i := false, 0, 0;
    ghost var passed: seq<string> := [];
    while i < |params|
      invariant 0 <= start <= i <= |params|
      invariant passed + SplitParams(params[i..], params[start..i], inQuote) == SplitParams(params, "", false)
      invariant !AnyPasses(passed, checkParam)
    {
      assert params[i..][1..] == params[i + 1..];
      assert params[start..i] + [params[i]] == params[start..i + 1];
      match params[i] {
        case '"' =>
          inQuote := !inQuote;
        case '\\' =>
          if inQuote && i + 1 < |params| {
            assert params[i..][2..] == params[i + 2..];
            assert params[start..i] + params[i..][..2] == params[start..i + 2];
            i := i + 1;
          }
        case ';' =>
          if !inQuote {
            PassesNext(passed, params[start..i], SplitParams(params[i + 1..], "", false), checkParam);
            if checkParam(params[start..i]) {
              return true;
            }
            passed := passed + [params[start..i]];
            start := i + 1;
            assert params[start..i + 1] == "";
          }
        case _ =>
      }
      i := i + 1;
    }
    assert params[start..] == params[start..i];
    AnyPassesAppend(passed, [params[start..]], checkParam);
    AnyPassesOne(params[start..], checkParam);
    found := checkParam(params[start..]);
  }

  function NextChecker(): string -> bool {
    (param: string) => CheckParam(param)
  }

  predicate AnyNext(params: seq<string>) {
    AnyPasses(params, NextChecker())
  }

  method LinkEntryHasRelNext(params: string) returns (found: bool)
    ensures found <==> AnyNext(SplitParams(params, "", false))
  {
    found := ScanForParam(params, NextChecker());
  }

  lemma AnyNextCons(p: string, rest: seq<string>)
    ensures AnyNext([p] + rest) <==> CheckParam(p) || AnyNext(rest)
  {
    assert ([p] + rest)[1..] == rest;
  }

  // ----- the header

  /** The URI of an entry that is a link with a next relation. */
  function NextUri(entry: string): Option<string> {
    var e := TrimSpace(entry);
    if !("<" <= e) then None
    else
      var uriEnd := IndexOf(e, '>');
      if uriEnd < 0 then None
      else if AnyNext(SplitParams(e[uriEnd + 1..], "", false)) then Some(e[1..uriEnd])
      else None
  }

  function FirstNextUri(entries: seq<string>): string {
    if entries == [] then ""
    else
      match NextUri(entries[0])
      case Some(uri) => uri
      case None => FirstNextUri(entries[1..])
  }

  method NextPageURL(header: string) returns (url: string)
    ensures url == FirstNextUri(SplitEntries(header, "", 0, false))
  {
    var entries := SplitLinkEntries(header);
    for i := 0 to |entries|
      invariant FirstNextUri(entries[i..]) == FirstNextUri(entries)
    {
      var entry := TrimSpace(entries[i]);
      if !("<" <= entry) {
        continue;
      }
      assert entry[0] == '<';
      var uriEnd := IndexOf(entry, '>');
      if uriEnd < 0 {
        continue;
      }
      var uri := entry[1..uriEnd];
      var found := LinkEntryHasRelNext(entry[uriEnd + 1..]);
      if found {
        return uri;
      }
    }
    return "";
  }

  // ----- printed headers

  /** `before ; gap name afterName = beforeValue value`, the gaps being white space. The value is a list of
      words, each after white space of its own and with white space behind the last, and it is quoted or, if
      it is a single word, may be bare. */
  datatype Param = Param(before: string, gap: string, name: string, afterName: string, beforeValue: string,
    words: seq<Word>, afterWords: string, quoted: bool)

  datatype Word = Word(space: string, text: string)

  function PrintWords(words: seq<Word>): string {
    if words == [] then "" else words[0].space + words[0].text + PrintWords(words[1..])
  }

  function ValueText(p: Param): string {
    PrintWords(p.words) + p.afterWords
  }

  function PrintValue(p: Param): string {
    if p.quoted then Quoted(ValueText(p)) else ValueText(p)
  }

  datatype Link = Link(lead: string, uri: string, params: seq<Param>, tail: string)

  function Quoted(value: string): string {
    "\"" + value + "\""
  }

  function Body(p: Param): string {
    p.name + p.afterName + "=" + p.beforeValue + PrintValue(p)
  }

  function PrintParams(params: seq<Param>): string {
    if params == [] then ""
    else params[0].before + ";" + (params[0].gap + Body(params[0])) + PrintParams(params[1..])
  }

  function PrintLink(link: Link): string {
    link.lead + (Target(link.uri) + PrintParams(link.params)) + link.tail
  }

  function PrintLinks(links: seq<Link>): seq<string> {
    Map(links, PrintLink)
  }

  function PrintHeader(links: seq<Link>): string {
    Join(PrintLinks(links), ',')
  }

  predicate IsToken(name: string) {
    && name != ""
    && forall i | 0 <= i < |name| :: !IsSpace(name[i]) && name[i] !in ['<', '>', '"', ',', ';', '=', '\\']
  }

  /** Text between quotes: a quote occurs only after a backslash, and a backslash always has a character
      after it. */
  predicate IsQuotedText(s: string) {
    || s == ""
    || (s[0] == '\\' && |s| > 1 && IsQuotedText(s[2..]))
    || (s[0] != '\\' && s[0] != '"' && IsQuotedText(s[1..]))
  }

  /** Words have no white space in them, and some between them. */
  predicate AreWords(words: seq<Word>) {
    forall i | 0 <= i < |words| ::
      && Blank(words[i].space) && (i > 0 ==> words[i].space != "")
      && words[i].text != "" && forall k | 0 <= k < |words[i].text| :: !IsSpace(words[i].text[k])
  }

  predicate IsParam(p: Param) {
    && Blank(p.before) && Blank(p.gap) && Blank(p.afterName) && Blank(p.beforeValue) && Blank(p.afterWords)
    && IsToken(p.name) && AreWords(p.words)
    && if p.quoted then IsQuotedText(ValueText(p))
       else |p.words| == 1 && p.words[0].space == p.afterWords == "" && IsToken(p.words[0].text)
  }

  /** A URI may hold commas and semicolons, but no angle bracket and no double quote. */
  predicate IsLink(link: Link) {
    && Blank(link.lead) && Blank(link.tail)
    && Free(link.uri, '<') && Free(link.uri, '>') && Free(link.uri, '"')
    && forall p | p in link.params :: IsParam(p)
  }

  predicate HasNextParam(params: seq<Param>) {
    exists p | p in params :: IsNextParam(p)
  }

  lemma HasNextParamCons(params: seq<Param>)
    requires params != []
    ensures HasNextParam(params) <==> IsNextParam(params[0]) || HasNextParam(params[1..])
  {
    assert params == [params[0]] + params[1..];
  }

  predicate IsNext(link: Link) {
    HasNextParam(link.params)
  }

  function FirstNextLink(links: seq<Link>): string {
    if links == [] then "" else if IsNext(links[0]) then links[0].uri else FirstNextLink(links[1..])
  }

  // ----- scanning printed text

  /** Characters that leave the scan where it is. */
  predicate Inert(c: char, depth: nat, inQuote: bool) {
    if inQuote then c != '"' && c != '\\'
    else c != '<' && c != '>' && c != '"' && (c == ',' ==> depth > 0)
  }

  predicate AllInert(w: string, depth: nat, inQuote: bool) {
    forall i | 0 <= i < |w| :: Inert(w[i], depth, inQuote)
  }

  lemma {:induction false} ScanInert(w: string, rest: string, entry: string, depth: nat, inQuote: bool)
    requires AllInert(w, depth, inQuote)
    ensures SplitEntries(w + rest, entry, depth, inQuote) == SplitEntries(rest, entry + w, depth, inQuote)
  {
    if w == "" {
      assert w + rest == rest && entry + w == entry;
    } else {
      assert (w + rest)[1..] == w[1..] + rest && (w + rest)[0] == w[0];
      assert entry + [w[0]] + w[1..] == entry + w;
      ScanInert(w[1..], rest, entry + [w[0]], depth, inQuote);
    }
  }

  lemma ScanOne(c: char, rest: string, entry: string, depth: nat, inQuote: bool)
    requires c == '"' || (!inQuote && (c == '<' || (c == '>' && depth > 0)))
    ensures SplitEntries([c] + rest, entry, depth, inQuote)
         == SplitEntries(rest, entry + [c],
                         if c == '<' then depth + 1 else if c == '>' then depth - 1 else depth,
                         if c == '"' then !inQuote else inQuote)
  {
    assert ([c] + rest)[1..] == rest;
  }

  /** Between quotes the scan goes to the closing one, over escaped quotes too. */
  lemma {:induction false} ScanQuotedText(value: string, rest: string, entry: string, depth: nat)
    requires IsQuotedText(value)
    ensures SplitEntries(value + ("\"" + rest), entry, depth, true)
         == SplitEntries("\"" + rest, entry + value, depth, true)
    decreases |value|
  {
    var s := value + ("\"" + rest);
    if value == "" {
      assert s == "\"" + rest && entry + value == entry;
    } else if value[0] == '\\' {
      assert s[2..] == value[2..] + ("\"" + rest) && s[..2] == value[..2];
      ScanQuotedText(value[2..], rest, entry + value[..2], depth);
      assert entry + value[..2] + value[2..] == entry + value;
    } else {
      assert s[1..] == value[1..] + ("\"" + rest) && s[0] == value[0];
      ScanQuotedText(value[1..], rest, entry + [value[0]], depth);
      assert entry + [value[0]] + value[1..] == entry + value;
    }
  }

  lemma ScanQuoted(value: string, rest: string, entry: string)
    requires IsQuotedText(value)
    ensures SplitEntries(Quoted(value) + rest, entry, 0, false) == SplitEntries(rest, entry + Quoted(value), 0, false)
  {
    assert Quoted(value) + rest == "\"" + (value + ("\"" + rest));
    ScanOne('"', value + ("\"" + rest), entry, 0, false);
    ScanQuotedText(value, rest, entry + "\"", 0);
    ScanOne('"', rest, entry + "\"" + value, 0, true);
    assert entry + "\"" + value + "\"" == entry + Quoted(value);
  }

  lemma BareIsToken(p: Param)
    requires IsParam(p) && !p.quoted
    ensures PrintValue(p) == p.words[0].text && IsToken(PrintValue(p))
  {
    assert PrintWords(p.words[1..]) == "";
    assert PrintWords(p.words) == p.words[0].text;
  }

  lemma ScanValue(p: Param, rest: string, entry: string)
    requires IsParam(p)
    ensures SplitEntries(PrintValue(p) + rest, entry, 0, false) == SplitEntries(rest, entry + PrintValue(p), 0, false)
  {
    if p.quoted {
      ScanQuoted(ValueText(p), rest, entry);
    } else {
      BareIsToken(p);
      ScanInert(PrintValue(p), rest, entry, 0, false);
    }
  }

  /** The part of a parameter before its value. */
  function Opening(p: Param): string {
    p.before + ";" + (p.gap + (p.name + p.afterName + "=" + p.beforeValue))
  }

  lemma OpeningInert(p: Param)
    requires IsParam(p)
    ensures AllInert(Opening(p), 0, false)
  {
    assert forall c | IsSpace(c) :: Inert(c, 0, false);
  }

  lemma PrintParamsHead(params: seq<Param>)
    requires params != []
    ensures PrintParams(params) == Opening(params[0]) + (PrintValue(params[0]) + PrintParams(params[1..]))
  {
  }

  lemma ParamsParts(params: seq<Param>, rest: string, entry: string)
    requires params != []
    ensures var (opening, value, tail) := (Opening(params[0]), PrintValue(params[0]), PrintParams(params[1..]));
            && PrintParams(params) + rest == opening + (value + (tail + rest))
            && entry + opening + value + tail == entry + PrintParams(params)
  {
    PrintParamsHead(params);
    RegroupFront(Opening(params[0]), PrintValue(params[0]), PrintParams(params[1..]), rest);
    RegroupBack(entry, Opening(params[0]), PrintValue(params[0]), PrintParams(params[1..]));
  }

  lemma RegroupFront(a: string, b: string, c: string, d: string)
    ensures a + (b + c) + d == a + (b + (c + d))
  {
  }

  lemma RegroupBack(a: string, b: string, c: string, d: string)
    ensures a + b + c + d == a + (b + (c + d))
  {
  }

  lemma {:induction false} ScanParams(params: seq<Param>, rest: string, entry: string)
    requires forall p | p in params :: IsParam(p)
    ensures SplitEntries(PrintParams(params) + rest, entry, 0, false)
        == SplitEntries(rest, entry + PrintParams(params), 0, false)
    decreases |params|
  {
    if params == [] {
      assert PrintParams(params) + rest == rest && entry + PrintParams(params) == entry;
    } else {
      var p, tail := params[0], PrintParams(params[1..]);
      ParamsParts(params, rest, entry);
      OpeningInert(p);
      ScanInert(Opening(p), PrintValue(p) + (tail + rest), entry, 0, false);
      ScanValue(p, tail + rest, entry + Opening(p));
      ScanParams(params[1..], rest, entry + Opening(p) + PrintValue(p));
    }
  }

  lemma BlankInert(pad: string)
    requires Blank(pad)
    ensures AllInert(pad, 0, false)
  {
    assert forall c | IsSpace(c) :: Inert(c, 0, false);
  }

  function Target(uri: string): string {
    "<" + uri + ">"
  }

  lemma ScanTarget(uri: string, rest: string, entry: string)
    requires Free(uri, '<') && Free(uri, '>') && Free(uri, '"')
    ensures SplitEntries(Target(uri) + rest, entry, 0, false) == SplitEntries(rest, entry + Target(uri), 0, false)
  {
    var r1 := ">" + rest;
    var r2 := uri + r1;
    assert Target(uri) + rest == "<" + r2;
    ScanOne('<', r2, entry, 0, false);
    ScanInert(uri, r1, entry + "<", 1, false);
    ScanOne('>', rest, entry + "<" + uri, 1, false);
    assert entry + "<" + uri + ">" == entry + Target(uri);
  }

  lemma RegroupLink(a: string, b: string, c: string, d: string, e: string)
    ensures a + (b + c) + d + e == a + (b + (c + (d + e)))
  {
  }

  lemma ScanBlank(pad: string, rest: string, entry: string)
    requires Blank(pad)
    ensures SplitEntries(pad + rest, entry, 0, false) == SplitEntries(rest, entry + pad, 0, false)
  {
    BlankInert(pad);
    ScanInert(pad, rest, entry, 0, false);
  }

  lemma ScanCore(link: Link, rest: string, entry: string)
    requires IsLink(link)
    ensures SplitEntries(Target(link.uri) + (PrintParams(link.params) + rest), entry, 0, false)
         == SplitEntries(rest, entry + Target(link.uri) + PrintParams(link.params), 0, false)
  {
    ScanTarget(link.uri, PrintParams(link.params) + rest, entry);
    ScanParams(link.params, rest, entry + Target(link.uri));
  }

  lemma LinkEnds(link: Link)
    ensures "" + link.lead + Target(link.uri) + PrintParams(link.params) + link.tail == PrintLink(link)
  {
  }

  lemma ScanLink(link: Link, rest: string)
    requires IsLink(link)
    ensures SplitEntries(PrintLink(link) + rest, "", 0, false) == SplitEntries(rest, PrintLink(link), 0, false)
  {
    var target, params := Target(link.uri), PrintParams(link.params);
    var entry := "" + link.lead;
    RegroupLink(link.lead, target, params, link.tail, rest);
    ScanBlank(link.lead, target + (params + (link.tail + rest)), "");
    ScanCore(link, link.tail + rest, entry);
    ScanBlank(link.tail, rest, entry + target + params);
    LinkEnds(link);
  }

  lemma PrintedCons(links: seq<Link>)
    requires |links| > 1
    ensures PrintLinks(links) == [PrintLink(links[0])] + PrintLinks(links[1..])
    ensures PrintHeader(links) == PrintLink(links[0]) + ("," + PrintHeader(links[1..]))
  {
    var printed := PrintLinks(links);
    assert printed[1..] == PrintLinks(links[1..]);
    assert printed == [printed[0]] + printed[1..];
  }

  /** A printed header is split into its printed links. */
  lemma {:induction false} SplitPrinted(links: seq<Link>)
    requires links != [] && forall l | l in links :: IsLink(l)
    ensures SplitEntries(PrintHeader(links), "", 0, false) == PrintLinks(links)
  {
    if |links| == 1 {
      var printed := PrintLink(links[0]);
      assert PrintLinks(links) == [printed] && printed + "" == printed;
      ScanLink(links[0], "");
    } else {
      var rest := PrintHeader(links[1..]);
      SplitPrinted(links[1..]);
      PrintedCons(links);
      ScanLink(links[0], "," + rest);
      assert ("," + rest)[1..] == rest;
    }
  }

  // ----- parameters of a printed link

  predicate ParamInert(c: char, inQuote: bool) {
    if inQuote then c != '"' && c != '\\' else c != '"' && c != ';'
  }

  lemma {:induction false} ParamScanInert(w: string, rest: string, param: string, inQuote: bool)
    requires forall i | 0 <= i < |w| :: ParamInert(w[i], inQuote)
    ensures SplitParams(w + rest, param, inQuote) == SplitParams(rest, param + w, inQuote)
  {
    if w == "" {
      assert w + rest == rest && param + w == param;
    } else {
      assert (w + rest)[1..] == w[1..] + rest && (w + rest)[0] == w[0];
      assert param + [w[0]] + w[1..] == param + w;
      ParamScanInert(w[1..], rest, param + [w[0]], inQuote);
    }
  }

  lemma {:induction false} ParamScanQuotedText(value: string, rest: string, param: string)
    requires IsQuotedText(value)
    ensures SplitParams(value + ("\"" + rest), param, true) == SplitParams("\"" + rest, param + value, true)
    decreases |value|
  {
    var s := value + ("\"" + rest);
    if value == "" {
      assert s == "\"" + rest && param + value == param;
    } else if value[0] == '\\' {
      assert s[2..] == value[2..] + ("\"" + rest) && s[..2] == value[..2];
      ParamScanQuotedText(value[2..], rest, param + value[..2]);
      assert param + value[..2] + value[2..] == param + value;
    } else {
      assert s[1..] == value[1..] + ("\"" + rest) && s[0] == value[0];
      ParamScanQuotedText(value[1..], rest, param + [value[0]]);
      assert param + [value[0]] + value[1..] == param + value;
    }
  }

  lemma ParamScanValue(p: Param, rest: string, param: string)
    requires IsParam(p)
    ensures SplitParams(PrintValue(p) + rest, param, false) == SplitParams(rest, param + PrintValue(p), false)
  {
    if p.quoted {
      var value := ValueText(p);
      var r1 := "\"" + rest;
      assert Quoted(value) + rest == "\"" + (value + r1);
      assert ("\"" + (value + r1))[1..] == value + r1 && r1[1..] == rest;
      ParamScanQuotedText(value, rest, param + "\"");
      assert param + "\"" + value + "\"" == param + Quoted(value);
    } else {
      BareIsToken(p);
      ParamScanInert(PrintValue(p), rest, param, false);
    }
  }

  lemma IndexOfAfter(left: string, c: char, right: string)
    requires c !in left
    ensures var s := left + [c] + right;
            IndexOf(s, c) == |left| && s[..|left|] == left && s[|left| + 1..] == right
  {
    var s := left + [c] + right;
    assert s[|left|] == c;
    assert forall j | 0 <= j < |left| :: s[j] == left[j];
  }

  lemma UnquoteValue(p: Param)
    requires IsParam(p)
    ensures Solid(PrintValue(p)) && Unquote(PrintValue(p)) == ValueText(p)
  {
    if !p.quoted {
      BareIsToken(p);
    }
  }

  // ----- the words of a value

  function Texts(words: seq<Word>): seq<string> {
    if words == [] then [] else [words[0].text] + Texts(words[1..])
  }

  lemma {:induction false} FieldsSkip(pad: string, rest: string)
    requires Blank(pad)
    ensures FieldsFrom(pad + rest, "") == FieldsFrom(rest, "")
  {
    if pad == "" {
      assert pad + rest == rest;
    } else {
      assert (pad + rest)[1..] == pad[1..] + rest && (pad + rest)[0] == pad[0];
      assert [] + FieldsFrom(pad[1..] + rest, "") == FieldsFrom(pad[1..] + rest, "");
      FieldsSkip(pad[1..], rest);
    }
  }

  lemma {:induction false} FieldsRead(text: string, rest: string, field: string)
    requires forall k | 0 <= k < |text| :: !IsSpace(text[k])
    ensures FieldsFrom(text + rest, field) == FieldsFrom(rest, field + text)
  {
    if text == "" {
      assert text + rest == rest && field + text == field;
    } else {
      assert (text + rest)[1..] == text[1..] + rest && (text + rest)[0] == text[0];
      assert field + [text[0]] + text[1..] == field + text;
      FieldsRead(text[1..], rest, field + [text[0]]);
    }
  }

  /** White space ends a field that was begun. */
  lemma FieldsEnd(pad: string, rest: string, field: string)
    requires Blank(pad) && field != "" && (pad != "" || rest == "")
    ensures FieldsFrom(pad + rest, field) == [field] + FieldsFrom(rest, "")
  {
    if pad == "" {
      assert pad + rest == "";
    } else {
      assert (pad + rest)[1..] == pad[1..] + rest && (pad + rest)[0] == pad[0];
      FieldsSkip(pad[1..], rest);
    }
  }

  /** A word in front of further text is a field of its own when white space or nothing follows. */
  lemma FieldsOfWord(w: Word, rest: string)
    requires AreWords([w]) && (rest == "" || IsSpace(rest[0]))
    ensures Fields(w.space + (w.text + rest)) == [w.text] + Fields(rest)
  {
    assert [w][0] == w;
    FieldsSkip(w.space, w.text + rest);
    FieldsRead(w.text, rest, "");
    assert "" + w.text == w.text;
    if rest == "" {
      FieldsEnd("", "", w.text);
    } else {
      assert rest == [rest[0]] + rest[1..];
      FieldsEnd([rest[0]], rest[1..], w.text);
      FieldsSkip([rest[0]], rest[1..]);
    }
  }

  /** What follows a word begins with white space or is nothing. */
  lemma AfterWord(words: seq<Word>, after: string)
    requires AreWords(words) && words != [] && Blank(after)
    ensures var rest := PrintWords(words[1..]) + after; rest == "" || IsSpace(rest[0])
  {
    if |words| == 1 {
      assert PrintWords(words[1..]) + after == after;
    } else {
      assert words[1..][0] == words[1] && words[1].space != "";
      assert PrintWords(words[1..]) == words[1].space + words[1].text + PrintWords(words[1..][1..]);
    }
  }

  /** The fields of printed words, whatever white space stands between and around them, are the words. */
  lemma {:induction false} FieldsOfWords(words: seq<Word>, after: string)
    requires AreWords(words) && Blank(after)
    ensures Fields(PrintWords(words) + after) == Texts(words)
    decreases |words|
  {
    if words == [] {
      assert PrintWords(words) + after == after + "";
      FieldsSkip(after, "");
    } else {
      var w, rest := words[0], PrintWords(words[1..]) + after;
      assert PrintWords(words) + after == w.space + (w.text + rest);
      AfterWord(words, after);
      WordsTail(words);
      FieldsOfWord(w, rest);
      FieldsOfWords(words[1..], after);
    }
  }

  lemma WordsTail(words: seq<Word>)
    requires AreWords(words) && words != []
    ensures AreWords(words[1..]) && AreWords([words[0]])
  {
    assert forall i | 0 <= i < |words[1..]| :: words[1..][i] == words[i + 1];
  }

  lemma {:induction false} TextsMembers(words: seq<Word>, text: string)
    ensures text in Texts(words) <==> exists w :: w in words && w.text == text
  {
    if words != [] {
      TextsMembers(words[1..], text);
      assert words == [words[0]] + words[1..];
    }
  }

  /** `s` is the word, letter by letter in the one or the other case. */
  predicate IsWord(s: string, lower: string, upper: string)
    requires |lower| == |upper|
  {
    |s| == |lower| && forall i | 0 <= i < |s| :: s[i] == lower[i] || s[i] == upper[i]
  }

  lemma FoldRel(s: string)
    ensures EqualFold(s, "rel") <==> IsWord(s, "rel", "REL")
  {
  }

  lemma FoldNext(s: string)
    ensures EqualFold(s, "next") <==> IsWord(s, "next", "NEXT")
  {
  }

  /** What makes a parameter a next relation: its name is rel, and one of its words is next. */
  predicate IsNextParam(p: Param) {
    IsWord(p.name, "rel", "REL") && exists w | w in p.words :: IsWord(w.text, "next", "NEXT")
  }

  lemma ValueHasNext(p: Param)
    requires IsParam(p)
    ensures HasNextToken(ValueText(p)) <==> exists w | w in p.words :: IsWord(w.text, "next", "NEXT")
  {
    FieldsOfWords(p.words, p.afterWords);
    forall text
      ensures text in Texts(p.words) <==> exists w :: w in p.words && w.text == text
      ensures EqualFold(text, "next") <==> IsWord(text, "next", "NEXT")
    {
      TextsMembers(p.words, text);
      FoldNext(text);
    }
  }

  /** The two sides of a printed parameter. */
  lemma CheckBody(p: Param)
    requires IsParam(p)
    ensures CheckTrimmed(Body(p)) <==> IsNextParam(p)
  {
    var left := p.name + p.afterName;
    var right := p.beforeValue + PrintValue(p);
    assert Body(p) == left + ['='] + right;
    IndexOfAfter(left, '=', right);
    assert left == "" + p.name + p.afterName && right == p.beforeValue + PrintValue(p) + "";
    UnquoteValue(p);
    TrimPadded("", p.name, p.afterName);
    TrimPadded(p.beforeValue, PrintValue(p), "");
    FoldRel(p.name);
    ValueHasNext(p);
  }

  lemma BodySolid(p: Param)
    requires IsParam(p)
    ensures Solid(Body(p))
  {
    UnquoteValue(p);
    assert Body(p)[0] == p.name[0] && Body(p)[|Body(p)| - 1] == PrintValue(p)[|PrintValue(p)| - 1];
  }

  /** What the check of a printed parameter sees, whatever white space follows it. */
  lemma CheckPrinted(p: Param, pad: string)
    requires IsParam(p) && Blank(pad)
    ensures CheckParam(p.gap + Body(p) + pad) <==> IsNextParam(p)
  {
    BodySolid(p);
    TrimPadded(p.gap, Body(p), pad);
    CheckBody(p);
  }

  lemma OpeningParamInert(p: Param, opening: string)
    requires IsParam(p) && opening == p.gap + (p.name + p.afterName + "=" + p.beforeValue)
    ensures forall i | 0 <= i < |opening| :: ParamInert(opening[i], false)
    ensures forall i | 0 <= i < |p.before| :: ParamInert(p.before[i], false)
  {
    assert forall c | IsSpace(c) :: ParamInert(c, false);
  }

  lemma SplitOneParam(params: seq<Param>, param: string)
    requires params != [] && IsParam(params[0])
    ensures SplitParams(PrintParams(params), param, false)
         == [param + params[0].before] + SplitParams(PrintParams(params[1..]), params[0].gap + Body(params[0]), false)
  {
    var p, tail := params[0], PrintParams(params[1..]);
    var opening := p.gap + (p.name + p.afterName + "=" + p.beforeValue);
    var r2 := opening + (PrintValue(p) + tail);
    PrintParamsHead(params);
    assert PrintParams(params) == p.before + (";" + r2);
    OpeningParamInert(p, opening);
    ParamScanInert(p.before, ";" + r2, param, false);
    assert (";" + r2)[1..] == r2;
    SplitBody(p, opening, tail);
  }

  lemma SplitBody(p: Param, opening: string, tail: string)
    requires IsParam(p) && opening == p.gap + (p.name + p.afterName + "=" + p.beforeValue)
    ensures SplitParams(opening + (PrintValue(p) + tail), "", false) == SplitParams(tail, p.gap + Body(p), false)
  {
    OpeningParamInert(p, opening);
    ParamScanInert(opening, PrintValue(p) + tail, "", false);
    ParamScanValue(p, tail, "" + opening);
    assert "" + opening + PrintValue(p) == p.gap + Body(p);
  }

  /** The check of a parameter text has one result, whatever white space follows. */
  ghost predicate ChecksAs(param: string, result: bool) {
    forall pad | Blank(pad) :: CheckParam(param + pad) == result
  }

  lemma BodyChecks(p: Param)
    requires IsParam(p)
    ensures ChecksAs(p.gap + Body(p), IsNextParam(p))
  {
    forall pad | Blank(pad)
      ensures CheckParam(p.gap + Body(p) + pad) == IsNextParam(p)
    {
      CheckPrinted(p, pad);
    }
  }

  lemma AnyNextStep(param: string, pad: string, rest: seq<string>, head: bool)
    requires ChecksAs(param, head) && Blank(pad)
    ensures AnyNext([param + pad] + rest) <==> head || AnyNext(rest)
  {
    AnyNextCons(param + pad, rest);
  }

  lemma AnyNextOnly(param: string, head: bool)
    requires ChecksAs(param, head)
    ensures AnyNext([param]) <==> head
  {
    AnyPassesOne(param, NextChecker());
    assert param + "" == param && Blank("");
  }

  /** The relation is found among the parameters, after a parameter text whose own check is `head`. */
  lemma {:induction false} AnyNextPrinted(params: seq<Param>, param: string, head: bool)
    requires forall p | p in params :: IsParam(p)
    requires ChecksAs(param, head)
    ensures AnyNext(SplitParams(PrintParams(params), param, false)) <==> head || HasNextParam(params)
    decreases |params|
  {
    if params == [] {
      AnyNextOnly(param, head);
    } else {
      var p := params[0];
      assert IsParam(p);
      SplitOneParam(params, param);
      AnyNextStep(param, p.before, SplitParams(PrintParams(params[1..]), p.gap + Body(p), false), head);
      BodyChecks(p);
      AnyNextPrinted(params[1..], p.gap + Body(p), IsNextParam(p));
      HasNextParamCons(params);
    }
  }

  lemma BlankIsNoParam(pad: string)
    requires Blank(pad)
    ensures !CheckParam(pad)
  {
    TrimBlank(pad);
  }

  lemma {:induction false} PrintParamsEnd(params: seq<Param>)
    requires params != [] && forall p | p in params :: IsParam(p)
    ensures PrintParams(params) != "" && !IsSpace(PrintParams(params)[|PrintParams(params)| - 1])
  {
    PrintParamsHead(params);
    UnquoteValue(params[0]);
    if |params| > 1 {
      PrintParamsEnd(params[1..]);
    }
  }

  function Core(link: Link): string {
    Target(link.uri) + PrintParams(link.params)
  }

  lemma CoreParts(link: Link)
    requires IsLink(link)
    ensures Solid(Core(link)) && "<" <= Core(link)
    ensures var uriEnd := IndexOf(Core(link), '>');
            && 1 <= uriEnd && Core(link)[1..uriEnd] == link.uri && Core(link)[uriEnd + 1..] == PrintParams(link.params)
  {
    var params := PrintParams(link.params);
    var left := "<" + link.uri;
    assert Core(link) == left + ['>'] + params;
    assert left[1..] == link.uri;
    IndexOfAfter(left, '>', params);
    assert Core(link)[1..|left|] == Core(link)[..|left|][1..];
    assert Core(link)[0] == '<';
    if link.params != [] {
      PrintParamsEnd(link.params);
      assert Core(link)[|Core(link)| - 1] == params[|params| - 1];
    }
  }

  lemma NothingChecksAsFalse()
    ensures ChecksAs("", false)
  {
    forall pad | Blank(pad)
      ensures CheckParam("" + pad) == false
    {
      assert "" + pad == pad;
      BlankIsNoParam(pad);
    }
  }

  lemma NextUriPrinted(link: Link)
    requires IsLink(link)
    ensures NextUri(PrintLink(link)) == if IsNext(link) then Some(link.uri) else None
  {
    CoreParts(link);
    TrimPadded(link.lead, Core(link), link.tail);
    NothingChecksAsFalse();
    AnyNextPrinted(link.params, "", false);
  }

  lemma {:induction false} TrimRightStarts(s: string)
    ensures TrimRight(s) <= s && (s != "" && !IsSpace(s[0]) ==> TrimRight(s) != "")
  {
    if s != "" && IsSpace(s[|s| - 1]) {
      TrimRightStarts(s[..|s| - 1]);
    }
  }

  /** An entry that does not begin with a bracket, or never closes it, is passed over. */
  lemma NoLinkIsSkipped(pad: string, text: string, entries: seq<string>)
    requires Blank(pad) && (text == "" || (!IsSpace(text[0]) && (text[0] != '<' || Free(text, '>'))))
    ensures FirstNextUri([pad + text] + entries) == FirstNextUri(entries)
  {
    TrimLeftBlank(pad, text);
    TrimRightStarts(text);
    assert ([pad + text] + entries)[1..] == entries;
    assert forall c | c in TrimRight(text) :: c in text;
  }

  lemma EmptyHeaderHasNone()
    ensures FirstNextUri(SplitEntries("", "", 0, false)) == ""
  {
    TrimBlank("");
    assert SplitEntries("", "", 0, false) == [""];
    assert NextUri("") == None && [""][1..] == [];
  }

  /** Reading a printed header gives the URI of its first link with a next relation, or "". */
  lemma NextPageInvertsPrinting(links: seq<Link>)
    requires forall l | l in links :: IsLink(l)
    ensures FirstNextUri(SplitEntries(PrintHeader(links), "", 0, false)) == FirstNextLink(links)
  {
    if links == [] {
      EmptyHeaderHasNone();
    } else {
      SplitPrinted(links);
      FirstNextOfPrinted(links);
    }
  }

  lemma {:induction false} FirstNextOfPrinted(links: seq<Link>)
    requires forall l | l in links :: IsLink(l)
    ensures FirstNextUri(PrintLinks(links)) == FirstNextLink(links)
  {
    if links != [] {
      NextUriPrinted(links[0]);
      FirstNextOfPrinted(links[1..]);
      assert PrintLinks(links)[1..] == PrintLinks(links[1..]);
    }
  }
}
