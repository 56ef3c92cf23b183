/**
 What leaves the machine: text cut to a number of bytes without splitting a character,
 and a request cut to its cap by dropping snippets from the end.
 */
module Outbound {
  import opened Decimal
  import opened Prelude
  import opened Utf8

  const MARKER := "[truncated]"

  predicate Ascii(s: string) {
    forall i :: 0 <= i < |s| ==> s[i] < '\U{80}'
  }

  lemma {:induction false} AsciiLength(s: string)
    requires Ascii(s)
    ensures ByteLength(s) == |s|
  {
    if s != [] {
      AsciiLength(s[1..]);
    }
  }

  // ----- truncation -----

  predicate IsLongestFit(s: string, k: nat, budget: nat) {
    k <= |s| && ByteLength(s[..k]) <= budget && (k < |s| ==> ByteLength(s[..k + 1]) > budget)
  }

  /** How many characters from the front fit in `budget` bytes. */
  function Fit(s: string, budget: nat): (k: nat)
    ensures k <= |s|
  {
    if s == [] || |Encode1(s[0])| > budget then 0 else 1 + Fit(s[1..], budget - |Encode1(s[0])|)
  }

  lemma {:induction false} FitIsLongest(s: string, budget: nat)
    ensures IsLongestFit(s, Fit(s, budget), budget)
  {
    if s != [] {
      assert s[..1] == [s[0]];
      if |Encode1(s[0])| <= budget {
        var k := Fit(s[1..], budget - |Encode1(s[0])|);
        FitIsLongest(s[1..], budget - |Encode1(s[0])|);
        ConsPrefix(s, k);
        if k < |s| - 1 {
          ConsPrefix(s, k + 1);
        }
      }
    }
  }

  lemma FitStops(s: string, budget: nat)
    requires budget < ByteLength(s)
    ensures Fit(s, budget) < |s|
  {
  }

  lemma LongestFitIsUnique(s: string, j: nat, k: nat, budget: nat)
    requires IsLongestFit(s, j, budget) && IsLongestFit(s, k, budget)
    ensures j == k
  {
    if j < k {
      LongerPrefix(s, j + 1, k);
    } else if k < j {
      LongerPrefix(s, k + 1, j);
    }
  }

  function Max(a: int, b: int): int {
    if a >= b then a else b
  }

  datatype Cut = Cut(kept: string, droppedBytes: int)

  /** What truncation promises, on whole characters. */
  function Truncate(text: string, maxBytes: int, marker: string): Cut {
    var total := ByteLength(text);
    if maxBytes <= 0 then Cut("", total)
    else if total <= maxBytes then Cut(text, 0)
    else if ByteLength(marker) >= maxBytes then Cut(Decode(Encode(marker)[..maxBytes]), total)
    else
      var k := Fit(text, maxBytes - ByteLength(marker));
      Cut(text[..k] + marker, total - ByteLength(text[..k]))
  }

  /** Inside the character after a longest fit, exactly its first byte does not continue one. */
  lemma ContinuesInside(s: string, k: nat, budget: nat, e: nat)
    requires IsLongestFit(s, k, budget) && ByteLength(s[..k]) <= e <= budget && e < ByteLength(s)
    ensures IsCont(Encode(s)[e]) <==> ByteLength(s[..k]) < e
  {
    var j := BoundaryOf(s, e);
    LongestFitIsUnique(s, j, k, e);
  }

  /** `truncateToBytes`: the walk back over the encoded bytes. */
  method TruncateToBytes(text: string, maxBytes: int, marker: string) returns (cut: Cut)
    ensures cut == Truncate(text, maxBytes, marker)
  {
    var buffer := Encode(text);
    var total := |buffer|;
    if maxBytes <= 0 {
      return Cut("", total);
    }
    if total <= maxBytes {
      return Cut(text, 0);
    }
    var markerBytes := ByteLength(marker);
    if markerBytes >= maxBytes {
      return Cut(Decode(Encode(marker)[..maxBytes]), total);
    }
    var budget := maxBytes - markerBytes;
    ghost var k := Fit(text, budget);
    FitIsLongest(text, budget);
    var end := budget;
    while end > 0 && IsCont(buffer[end])
      invariant ByteLength(text[..k]) <= end <= budget
    {
      ContinuesInside(text, k, budget, end);
      end := end - 1;
    }
    ContinuesInside(text, k, budget, end);
    Prefixes(text, k);
    assert buffer[..end] == Encode(text[..k]);
    DecodeEncode(text[..k]);
    var kept := Decode(buffer[..end]);
    cut := Cut(kept + marker, total - ByteLength(kept));
  }

  /**
   When the text is cut and there is room, what is kept is the longest run of whole
   characters that leaves room for the marker, and kept plus dropped bytes are the total.
   */
  lemma CutIsLongest(text: string, maxBytes: int, marker: string)
    requires ByteLength(marker) < maxBytes < ByteLength(text)
    ensures var cut := Truncate(text, maxBytes, marker);
            exists k: nat :: k < |text| && cut.kept == text[..k] + marker && ByteLength(text[..k]) + cut.droppedBytes == ByteLength(text)
                          && forall j: nat :: j <= |text| && ByteLength(text[..j] + marker) <= maxBytes ==> j <= k
  {
    var k := Fit(text, maxBytes - ByteLength(marker));
    FitIsLongest(text, maxBytes - ByteLength(marker));
    FitStops(text, maxBytes - ByteLength(marker));
    forall j: nat | j <= |text| && ByteLength(text[..j] + marker) <= maxBytes ensures j <= k {
      EncodeAppend(text[..j], marker);
      if j > k {
        LongerPrefix(text, k + 1, j);
      }
    }
  }

  /** Whether a marker too long for the bytes ends up no longer than them. */
  predicate MarkerCutFits(marker: string, maxBytes: nat) {
    var whole := ByteLength(marker[..Fit(marker, maxBytes)]);
    whole == maxBytes || maxBytes - whole >= 3
  }

  lemma CutMarkerLength(marker: string, maxBytes: nat)
    requires maxBytes <= ByteLength(marker)
    ensures var whole := ByteLength(marker[..Fit(marker, maxBytes)]);
            ByteLength(Decode(Encode(marker)[..maxBytes])) == if whole == maxBytes then whole else whole + 3
  {
    var k := Fit(marker, maxBytes);
    FitIsLongest(marker, maxBytes);
    assert k == |marker| ==> marker[..k] == marker;
    DecodePrefix(marker, maxBytes, k);
    EncodeAppend(marker[..k], [REPLACEMENT]);
  }

  /** The result is within the bytes exactly when it is not a marker cut after the first or second byte of a character. */
  lemma TruncationFits(text: string, maxBytes: int, marker: string)
    ensures ByteLength(Truncate(text, maxBytes, marker).kept) <= Max(0, maxBytes)
       <==> (0 < maxBytes < ByteLength(text) && maxBytes <= ByteLength(marker) ==> MarkerCutFits(marker, maxBytes))
  {
    if 0 < maxBytes < ByteLength(text) {
      if maxBytes <= ByteLength(marker) {
        CutMarkerLength(marker, maxBytes);
        FitIsLongest(marker, maxBytes);
      } else {
        var k := Fit(text, maxBytes - ByteLength(marker));
        FitIsLongest(text, maxBytes - ByteLength(marker));
        EncodeAppend(text[..k], marker);
      }
    }
  }

  lemma {:induction false} AsciiFit(s: string, budget: nat)
    requires Ascii(s) && budget <= |s|
    ensures Fit(s, budget) == budget && ByteLength(s[..budget]) == budget
  {
    AsciiLength(s[..budget]);
    if s != [] && budget > 0 {
      AsciiFit(s[1..], budget - 1);
    }
  }

  /** With a marker of single-byte characters, as the code's own is, the bound always holds. */
  lemma AsciiMarkerAlwaysFits(text: string, maxBytes: int, marker: string)
    requires Ascii(marker)
    ensures ByteLength(Truncate(text, maxBytes, marker).kept) <= Max(0, maxBytes)
  {
    TruncationFits(text, maxBytes, marker);
    AsciiLength(marker);
    if 0 < maxBytes <= |marker| {
      AsciiFit(marker, maxBytes);
    }
  }

  /** Nearly all of the room is used: at most three bytes are lost to a character that does not fit. */
  lemma TruncationUsesTheRoom(text: string, maxBytes: int, marker: string)
    requires 0 <= maxBytes < ByteLength(text) && Ascii(marker)
    ensures ByteLength(Truncate(text, maxBytes, marker).kept) >= maxBytes - 3
  {
    AsciiLength(marker);
    if 0 < maxBytes <= |marker| {
      CutMarkerLength(marker, maxBytes);
      AsciiFit(marker, maxBytes);
    } else if maxBytes > 0 {
      var budget := maxBytes - |marker|;
      var k := Fit(text, budget);
      FitIsLongest(text, budget);
      EncodeAppend(text[..k], marker);
      FitStops(text, budget);
      assert text[..k + 1] == text[..k] + [text[k]];
      EncodeAppend(text[..k], [text[k]]);
      EncodeOne(text[k]);
    }
  }

  // ----- what goes on the wire -----

  function HexDigit(d: nat): char
    requires d < 16
  {
    if d < 10 then '0' + d as char else 'a' + (d - 10) as char
  }

  /** A character inside a JSON string. */
  function Escaped(c: char): (r: string)
    ensures r == [c] || (Ascii(r) && |r| >= 2 && c < '\U{80}')
  {
    if c == '"' then "\\\""
    else if c == '\\' then "\\\\"
    else if c == '\U{8}' then "\\b"
    else if c == '\t' then "\\t"
    else if c == '\n' then "\\n"
    else if c == '\U{C}' then "\\f"
    else if c == '\r' then "\\r"
    else if c < ' ' then "\\u00" + [HexDigit(c as nat / 16), HexDigit(c as nat % 16)]
    else [c]
  }

  function EscapedAll(s: string): string {
    if s == [] then [] else Escaped(s[0]) + EscapedAll(s[1..])
  }

  function JsonString(s: string): string {
    "\"" + EscapedAll(s) + "\""
  }

  function HexValue(c: char): Option<nat> {
    if '0' <= c <= '9' then Some(c as nat - '0' as nat)
    else if 'a' <= c <= 'f' then Some(c as nat - 'a' as nat + 10)
    else None
  }

  /** The character of a `\u` escape, given its four digits. */
  function FromHex(s: string): Option<char>
    requires |s| == 4
  {
    var a, b, c, d := HexValue(s[0]), HexValue(s[1]), HexValue(s[2]), HexValue(s[3]);
    if a.None? || b.None? || c.None? || d.None? then None
    else
      var n := ((a.value * 16 + b.value) * 16 + c.value) * 16 + d.value;
      if 0xD800 <= n < 0xE000 then None else Some(n as char)
  }

  function Prepended(c: char, rest: Option<string>): Option<string> {
    if rest.None? then None else Some([c] + rest.value)
  }

  /** Reading the inside of a JSON string, by section 7 of RFC 8259. */
  function Read(s: string): Option<string> {
    if s == [] then Some([])
    else if s[0] == '"' || s[0] < ' ' then None
    else if s[0] != '\\' then Prepended(s[0], Read(s[1..]))
    else if |s| < 2 then None
    else if s[1] == '"' || s[1] == '\\' || s[1] == '/' then Prepended(s[1], Read(s[2..]))
    else if s[1] == 'b' then Prepended('\U{8}', Read(s[2..]))
    else if s[1] == 'f' then Prepended('\U{C}', Read(s[2..]))
    else if s[1] == 'n' then Prepended('\n', Read(s[2..]))
    else if s[1] == 'r' then Prepended('\r', Read(s[2..]))
    else if s[1] == 't' then Prepended('\t', Read(s[2..]))
    else if s[1] == 'u' && |s| >= 6 then
      var c := FromHex(s[2..6]);
      if c.None? then None else Prepended(c.value, Read(s[6..]))
    else None
  }

  lemma ReadEscaped(c: char, rest: string)
    ensures Read(Escaped(c) + rest) == Prepended(c, Read(rest))
  {
    var whole := Escaped(c) + rest;
    if |Escaped(c)| == 1 {
      assert whole[1..] == rest;
    } else if |Escaped(c)| == 2 {
      assert whole[2..] == rest;
    } else {
      assert whole[2..6] == Escaped(c)[2..6] && whole[6..] == rest;
      assert FromHex(Escaped(c)[2..6]) == Some(c);
    }
  }

  /** A JSON reader gets back what was written. */
  lemma {:induction false} ReadBack(s: string)
    ensures Read(EscapedAll(s)) == Some(s)
  {
    if s != [] {
      ReadBack(s[1..]);
      ReadEscaped(s[0], EscapedAll(s[1..]));
      assert [s[0]] + s[1..] == s;
    }
  }

  function Commas(items: seq<string>): string {
    if items == [] then [] else if |items| == 1 then items[0] else Commas(items[..|items| - 1]) + "," + items[|items| - 1]
  }

  datatype Snippet = Snippet(path: string, text: string, startLine: Option<nat>)

  function SnippetJson(s: Snippet): string {
    "{\"path\":" + JsonString(s.path) + ",\"text\":" + JsonString(s.text)
    + (if s.startLine.Some? then ",\"startLine\":" + Digits(s.startLine.value) else "") + "}"
  }

  function SnippetsJson(snippets: seq<Snippet>): seq<string> {
    seq(|snippets|, i requires 0 <= i < |snippets| => SnippetJson(snippets[i]))
  }

  function PathsJson(paths: seq<string>): seq<string> {
    seq(|paths|, i requires 0 <= i < |paths| => JsonString(paths[i]))
  }

  /** A filtered state: text, or any other value by its JSON. */
  datatype State = Text(text: string) | Value(json: string)

  function StateJson(state: State): string {
    match state
    case Text(text) => JsonString(text)
    case Value(json) => json
  }

  const OPEN := "{\"state\":"
  const SNIPPETS := ",\"snippets\":["

  function PathsPart(paths: seq<string>): string {
    "],\"paths\":[" + Commas(PathsJson(paths)) + "]}"
  }

  /** The body that is sent: an object of the state, the snippets and the paths. */
  function Serialise(state: State, snippets: seq<Snippet>, paths: seq<string>): string {
    (OPEN + StateJson(state)) + (SNIPPETS + Commas(SnippetsJson(snippets)) + PathsPart(paths))
  }

  function SizeOf(state: State, snippets: seq<Snippet>, paths: seq<string>): nat {
    ByteLength(Serialise(state, snippets, paths))
  }

  lemma CommasOfTwo(a: string, b: string)
    ensures Commas([a, b]) == a + "," + b
  {
    assert [a, b][..1] == [a];
  }

  /** A snippet in JSON, with its line where it has one. */
  lemma SnippetForm(path: string, text: string, line: nat)
    ensures SnippetJson(Snippet(path, text, Some(line)))
         == "{\"path\":" + JsonString(path) + ",\"text\":" + JsonString(text) + (",\"startLine\":" + Digits(line)) + "}"
    ensures SnippetJson(Snippet(path, text, None)) == "{\"path\":" + JsonString(path) + ",\"text\":" + JsonString(text) + "" + "}"
  {
  }

  /** The body, spelt out for two snippets and two paths. */
  lemma SerialisedForm(state: State, a: Snippet, b: Snippet, p: string, q: string)
    ensures Serialise(state, [a, b], [p, q])
         == ("{\"state\":" + StateJson(state))
            + (",\"snippets\":[" + (SnippetJson(a) + "," + SnippetJson(b)) + ("],\"paths\":[" + (JsonString(p) + "," + JsonString(q)) + "]}"))
  {
    assert SnippetsJson([a, b]) == [SnippetJson(a), SnippetJson(b)];
    assert PathsJson([p, q]) == [JsonString(p), JsonString(q)];
    CommasOfTwo(SnippetJson(a), SnippetJson(b));
    CommasOfTwo(JsonString(p), JsonString(q));
  }

  lemma {:induction false} EscapingNeverShrinks(s: string)
    ensures ByteLength(EscapedAll(s)) >= ByteLength(s)
  {
    if s != [] {
      EscapingNeverShrinks(s[1..]);
      EncodeAppend(Escaped(s[0]), EscapedAll(s[1..]));
      if Escaped(s[0]) != [s[0]] {
        AsciiLength(Escaped(s[0]));
      }
    }
  }

  lemma JsonStringLength(s: string)
    ensures ByteLength(JsonString(s)) >= ByteLength(s) + 2
  {
    EscapingNeverShrinks(s);
    EncodeAppend("\"", EscapedAll(s));
    EncodeAppend("\"" + EscapedAll(s), "\"");
    AsciiLength("\"");
  }

  /** The size of everything but the state. */
  function Around(snippets: seq<Snippet>, paths: seq<string>): nat {
    ByteLength(OPEN) + ByteLength(SNIPPETS) + ByteLength(Commas(SnippetsJson(snippets))) + ByteLength(PathsPart(paths))
  }

  lemma FiveParts(a: string, b: string, c: string, d: string, e: string)
    ensures ByteLength((a + b) + (c + d + e)) == ByteLength(a) + ByteLength(b) + ByteLength(c) + ByteLength(d) + ByteLength(e)
  {
    EncodeAppend(a + b, c + d + e);
    EncodeAppend(a, b);
    EncodeAppend(c + d, e);
    EncodeAppend(c, d);
  }

  lemma SizeSplits(state: State, snippets: seq<Snippet>, paths: seq<string>)
    ensures SizeOf(state, snippets, paths) == ByteLength(StateJson(state)) + Around(snippets, paths)
  {
    FiveParts(OPEN, StateJson(state), SNIPPETS, Commas(SnippetsJson(snippets)), PathsPart(paths));
  }

  /** The state as text, before it is cut. */
  function RawState(state: State): string {
    match state
    case Text(text) => text
    case Value(json) => json
  }

  lemma CutOrWhole(text: string, maxBytes: nat, marker: string)
    requires Ascii(marker)
    ensures var kept := Truncate(text, maxBytes, marker).kept;
            kept == text || ByteLength(kept) >= maxBytes - 3
  {
    if maxBytes < ByteLength(text) {
      TruncationUsesTheRoom(text, maxBytes, marker);
    } else if maxBytes == 0 {
      assert text == "";
    }
  }

  /** However the state is cut, the request that did not fit still does not: the text around it is too long. */
  lemma CuttingIsNotEnough(state: State, kept: string, snippets: seq<Snippet>, paths: seq<string>, cap: int)
    requires SizeOf(state, snippets, paths) > cap
    requires kept == RawState(state) || ByteLength(kept) >= Max(0, cap) - 3
    ensures SizeOf(Text(kept), snippets, paths) > cap
  {
    SizeSplits(state, snippets, paths);
    SizeSplits(Text(kept), snippets, paths);
    JsonStringLength(kept);
  }

  // ----- the filter -----

  /** Whether and how a path is denied, how text is redacted, and the caps in force. */
  datatype Policy = Policy(
    denied: string -> bool,
    normal: string -> string,
    redact: string -> string,
    maxSnippets: nat,
    maxSnippetBytes: int,
    sendFilePaths: bool)

  datatype Reason = Denied | OverBudget

  datatype Removal = Removal(what: string, reason: Reason, bytes: nat)

  /** `text` is `whole`, or a run of its characters from the front with the marker behind, or as much of the marker as there is room for. */
  predicate IsCutOf(whole: string, text: string, maxBytes: int) {
    && ByteLength(text) <= Max(0, maxBytes)
    && (0 < ByteLength(whole) <= maxBytes ==> text == whole)
    && (text == whole || text <= MARKER || exists k :: 0 <= k <= |whole| && text == whole[..k] + MARKER)
  }

  /** What leaves for an offered snippet: nothing denied, no path unless paths are sent, and of the text only its redaction. */
  predicate SentFor(p: Policy, offered: Snippet, sent: Snippet) {
    && !p.denied(offered.path)
    && sent.path == (if p.sendFilePaths then p.normal(offered.path) else "")
    && sent.startLine == offered.startLine
    && sent.text == Truncate(p.redact(offered.text), p.maxSnippetBytes, MARKER).kept
    && IsCutOf(p.redact(offered.text), sent.text, p.maxSnippetBytes)
  }

  lemma MarkerIsAscii()
    ensures Ascii(MARKER)
  {
  }

  lemma MarkerPrefix(maxBytes: nat)
    requires maxBytes <= |MARKER|
    ensures Decode(Encode(MARKER)[..maxBytes]) == MARKER[..maxBytes]
  {
    MarkerIsAscii();
    AsciiLength(MARKER);
    AsciiFit(MARKER, maxBytes);
    Prefixes(MARKER, maxBytes);
    DecodeEncode(MARKER[..maxBytes]);
  }

  lemma TruncationIsACut(whole: string, maxBytes: int)
    ensures IsCutOf(whole, Truncate(whole, maxBytes, MARKER).kept, maxBytes)
  {
    MarkerIsAscii();
    AsciiMarkerAlwaysFits(whole, maxBytes, MARKER);
    AsciiLength(MARKER);
    if 0 < maxBytes < ByteLength(whole) && maxBytes <= |MARKER| {
      MarkerPrefix(maxBytes);
    }
  }

  /** How a removed snippet is reported: by its canonical path, with the reason and the bytes it had. */
  function RemovalFor(p: Policy, s: Snippet): Removal {
    Removal(p.normal(s.path), if p.denied(s.path) then Denied else OverBudget, ByteLength(s.text))
  }

  /** What became of each offered snippet: what was sent for it, or nothing. */
  type Fates = seq<Option<Snippet>>

  function Kept(fates: Fates): seq<Snippet> {
    if fates == [] then []
    else Kept(fates[..|fates| - 1]) + if fates[|fates| - 1].Some? then [fates[|fates| - 1].value] else []
  }

  function Removed(p: Policy, offered: seq<Snippet>, fates: Fates): seq<Removal>
    requires |fates| == |offered|
  {
    if fates == [] then []
    else
      var n := |fates| - 1;
      Removed(p, offered[..n], fates[..n]) + if fates[n].None? then [RemovalFor(p, offered[n])] else []
  }

  /** Snippet `i` goes when it is denied or as many as allowed were kept before it, and otherwise is sent as it should be. */
  predicate FateIsRight(p: Policy, offered: seq<Snippet>, fates: Fates, i: nat)
    requires i < |offered| == |fates|
  {
    if p.denied(offered[i].path) || |Kept(fates[..i])| >= p.maxSnippets then fates[i].None?
    else fates[i].Some? && SentFor(p, offered[i], fates[i].value)
  }

  /** Every offered snippet is accounted for: it is kept or reported removed, in order, and rightly. */
  ghost predicate Accounted(p: Policy, offered: seq<Snippet>, kept: seq<Snippet>, removed: seq<Removal>, fates: Fates) {
    && |fates| == |offered| && kept == Kept(fates) && removed == Removed(p, offered, fates)
    && forall i :: 0 <= i < |offered| ==> FateIsRight(p, offered, fates, i)
  }

  lemma AccountOne(p: Policy, offered: seq<Snippet>, kept: seq<Snippet>, removed: seq<Removal>, fates: Fates, s: Snippet, fate: Option<Snippet>)
    requires Accounted(p, offered, kept, removed, fates)
    requires if p.denied(s.path) || |kept| >= p.maxSnippets then fate.None? else fate.Some? && SentFor(p, s, fate.value)
    ensures Accounted(p, offered + [s], kept + (if fate.Some? then [fate.value] else []),
                      removed + (if fate.None? then [RemovalFor(p, s)] else []), fates + [fate])
  {
    var all, next, n := offered + [s], fates + [fate], |offered|;
    assert next[..n] == fates && all[..n] == offered;
    forall i | 0 <= i < |all| ensures FateIsRight(p, all, next, i) {
      assert next[..i] == fates[..i];
      assert i < n ==> FateIsRight(p, offered, fates, i);
    }
  }

  /** `#filterSnippets`: the first admissible snippets, each redacted and cut; the rest is reported. */
  method FilterSnippets(p: Policy, offered: seq<Snippet>)
      returns (kept: seq<Snippet>, removed: seq<Removal>, ghost fates: Fates)
    ensures Accounted(p, offered, kept, removed, fates)
  {
    kept, removed, fates := [], [], [];
    for i := 0 to |offered|
      invariant Accounted(p, offered[..i], kept, removed, fates)
    {
      TakeOneMore(offered, i);
      var snippet := offered[i];
      var what := p.normal(snippet.path);
      if p.denied(snippet.path) {
        AccountOne(p, offered[..i], kept, removed, fates, snippet, None);
        removed, fates := removed + [Removal(what, Denied, ByteLength(snippet.text))], fates + [None];
      } else if |kept| >= p.maxSnippets {
        AccountOne(p, offered[..i], kept, removed, fates, snippet, None);
        removed, fates := removed + [Removal(what, OverBudget, ByteLength(snippet.text))], fates + [None];
      } else {
        var redacted := p.redact(snippet.text);
        var cut := TruncateToBytes(redacted, p.maxSnippetBytes, MARKER);
        TruncationIsACut(redacted, p.maxSnippetBytes);
        var sent := Snippet(if p.sendFilePaths then what else "", cut.kept, snippet.startLine);
        AccountOne(p, offered[..i], kept, removed, fates, snippet, Some(sent));
        kept, fates := kept + [sent], fates + [Some(sent)];
      }
    }
    assert offered[..|offered|] == offered;
  }

  lemma {:induction false} AllAccountedFor(p: Policy, offered: seq<Snippet>, fates: Fates)
    requires |fates| == |offered|
    ensures |Kept(fates)| + |Removed(p, offered, fates)| == |offered|
    ensures forall s :: s in Kept(fates) ==> exists i :: 0 <= i < |fates| && fates[i] == Some(s)
  {
    if fates != [] {
      var n := |fates| - 1;
      AllAccountedFor(p, offered[..n], fates[..n]);
      forall s | s in Kept(fates) ensures exists i :: 0 <= i < |fates| && fates[i] == Some(s) {
        if s in Kept(fates[..n]) {
          var i :| 0 <= i < n && fates[..n][i] == Some(s);
          assert fates[i] == Some(s);
        } else {
          assert fates[n] == Some(s);
        }
      }
    }
  }

  /** The text is a redacted text, a run of its characters from the front with the marker behind, or part of the marker. */
  ghost predicate OnlyOf(redacted: string, text: string) {
    text == redacted || text <= MARKER || exists k :: 0 <= k <= |redacted| && text == redacted[..k] + MARKER
  }

  /** What leaves for a snippet, seen from outside. */
  ghost predicate Leaves(p: Policy, offered: seq<Snippet>, s: Snippet) {
    exists o :: o in offered && !p.denied(o.path) && OnlyOf(p.redact(o.text), s.text)
                && s.startLine == o.startLine && (p.sendFilePaths ==> s.path == p.normal(o.path))
  }

  /** Nothing of a denied snippet leaves, no path unless paths are sent, and of a text only its redaction. */
  lemma OnlyRedactedLeaves(p: Policy, offered: seq<Snippet>, kept: seq<Snippet>, removed: seq<Removal>, fates: Fates)
    requires Accounted(p, offered, kept, removed, fates)
    ensures |kept| + |removed| == |offered|
    ensures forall s :: s in kept ==> Leaves(p, offered, s) && (!p.sendFilePaths ==> s.path == "")
  {
    AllAccountedFor(p, offered, fates);
    forall s | s in kept ensures Leaves(p, offered, s) && (!p.sendFilePaths ==> s.path == "") {
      var i :| 0 <= i < |fates| && fates[i] == Some(s);
      assert FateIsRight(p, offered, fates, i) && SentFor(p, offered[i], s);
      assert offered[i] in offered;
    }
  }

  lemma {:induction false} KeptWithinTheMaximum(p: Policy, offered: seq<Snippet>, fates: Fates, n: nat)
    requires n <= |offered| == |fates| && forall i :: 0 <= i < |offered| ==> FateIsRight(p, offered, fates, i)
    ensures |Kept(fates[..n])| <= p.maxSnippets
  {
    if n > 0 {
      KeptWithinTheMaximum(p, offered, fates, n - 1);
      assert FateIsRight(p, offered, fates, n - 1);
      assert fates[..n][..n - 1] == fates[..n - 1];
    }
  }

  /** The same paths and lines, and texts that are redacted alike. */
  predicate RedactedAlike(p: Policy, a: seq<Snippet>, b: seq<Snippet>) {
    && |a| == |b|
    && forall i :: 0 <= i < |a| ==>
         a[i].path == b[i].path && a[i].startLine == b[i].startLine && p.redact(a[i].text) == p.redact(b[i].text)
  }

  lemma OneFateAlike(p: Policy, a: seq<Snippet>, b: seq<Snippet>, fa: Fates, fb: Fates, i: nat)
    requires i < |a| == |b| == |fa| == |fb| && fa[..i] == fb[..i]
    requires a[i].path == b[i].path && a[i].startLine == b[i].startLine && p.redact(a[i].text) == p.redact(b[i].text)
    requires FateIsRight(p, a, fa, i) && FateIsRight(p, b, fb, i)
    ensures fa[i] == fb[i]
  {
  }

  lemma {:induction false} FatesAlike(p: Policy, a: seq<Snippet>, b: seq<Snippet>, fa: Fates, fb: Fates, n: nat)
    requires RedactedAlike(p, a, b) && n <= |a| == |fa| == |fb|
    requires forall i :: 0 <= i < |a| ==> FateIsRight(p, a, fa, i) && FateIsRight(p, b, fb, i)
    ensures fa[..n] == fb[..n]
  {
    if n > 0 {
      FatesAlike(p, a, b, fa, fb, n - 1);
      OneFateAlike(p, a, b, fa, fb, n - 1);
      assert fa[..n] == fa[..n - 1] + [fa[n - 1]] && fb[..n] == fb[..n - 1] + [fb[n - 1]];
    }
  }

  /** What leaves tells nothing of a text but its redaction: offers that are redacted alike are sent alike. */
  lemma OnlyTheRedactionMatters(p: Policy, a: seq<Snippet>, b: seq<Snippet>, ka: seq<Snippet>, kb: seq<Snippet>,
                                ra: seq<Removal>, rb: seq<Removal>, fa: Fates, fb: Fates)
    requires RedactedAlike(p, a, b) && Accounted(p, a, ka, ra, fa) && Accounted(p, b, kb, rb, fb)
    ensures ka == kb && |ka| <= p.maxSnippets
  {
    FatesAlike(p, a, b, fa, fb, |a|);
    KeptWithinTheMaximum(p, a, fa, |a|);
    assert fa[..|a|] == fa && fb[..|a|] == fb;
  }

  predicate TooLong(state: State, all: seq<Snippet>, paths: seq<string>, cap: int, m: nat)
    requires m <= |all|
  {
    SizeOf(state, all[..m], paths) > cap
  }

  /** More than `n` snippets from the front never fit. */
  ghost predicate MoreIsTooLong(state: State, all: seq<Snippet>, paths: seq<string>, cap: int, n: nat) {
    forall m :: n < m <= |all| ==> TooLong(state, all, paths, cap, m)
  }

  /** `n` is the longest run of snippets from the front with which the request fits, or none if it never does. */
  ghost predicate LongestThatFits(state: State, all: seq<Snippet>, paths: seq<string>, cap: int, n: nat) {
    && n <= |all|
    && (n > 0 ==> !TooLong(state, all, paths, cap, n))
    && MoreIsTooLong(state, all, paths, cap, n)
  }

  lemma OneFewer(state: State, all: seq<Snippet>, paths: seq<string>, cap: int, n: nat)
    requires 0 < n <= |all| && MoreIsTooLong(state, all, paths, cap, n) && TooLong(state, all, paths, cap, n)
    ensures MoreIsTooLong(state, all, paths, cap, n - 1)
  {
  }

  function DroppedFor(s: Snippet): Removal {
    Removal(s.path, OverBudget, ByteLength(s.text))
  }

  ghost predicate DroppedFromTheEnd(all: seq<Snippet>, dropped: seq<Removal>) {
    |dropped| <= |all| && forall i :: 0 <= i < |dropped| ==> dropped[i] == DroppedFor(all[|all| - 1 - i])
  }

  lemma OneMoreDropped(all: seq<Snippet>, dropped: seq<Removal>)
    requires |dropped| < |all| && DroppedFromTheEnd(all, dropped)
    ensures DroppedFromTheEnd(all, dropped + [DroppedFor(all[|all| - 1 - |dropped|])])
  {
  }

  lemma OneShorter(all: seq<Snippet>, n: nat)
    requires 0 < n <= |all|
    ensures all[..n][..n - 1] == all[..n - 1] && all[..n][n - 1] == all[n - 1]
  {
  }

  /** Drop whole snippets from the end while the request is too long. */
  method DropToFit(state: State, all: seq<Snippet>, paths: seq<string>, cap: int)
      returns (snippets: seq<Snippet>, dropped: seq<Removal>)
    ensures snippets <= all && LongestThatFits(state, all, paths, cap, |snippets|)
    ensures |snippets| + |dropped| == |all|
    ensures DroppedFromTheEnd(all, dropped)
  {
    snippets, dropped := all, [];
    var n := |all|;
    assert all[..n] == all;
    while n > 0 && TooLong(state, all, paths, cap, n)
      invariant n <= |all| && snippets == all[..n]
      invariant |dropped| == |all| - n && DroppedFromTheEnd(all, dropped)
      invariant MoreIsTooLong(state, all, paths, cap, n)
    {
      OneFewer(state, all, paths, cap, n);
      OneMoreDropped(all, dropped);
      OneShorter(all, n);
      dropped := dropped + [DroppedFor(snippets[n - 1])];
      n := n - 1;
      snippets := snippets[..n];
    }
  }

  /** What is left of the state once it is cut to the cap. */
  function CutText(state: State, cap: int): string {
    Truncate(RawState(state), Max(0, cap), MARKER).kept
  }

  lemma CutStateStaysOver(state: State, snippets: seq<Snippet>, paths: seq<string>, cap: int)
    requires SizeOf(state, snippets, paths) > cap
    ensures SizeOf(Text(CutText(state, cap)), snippets, paths) > cap
  {
    MarkerIsAscii();
    CutOrWhole(RawState(state), Max(0, cap), MARKER);
    CuttingIsNotEnough(state, CutText(state, cap), snippets, paths, cap);
  }

  method CutTextOf(state: State, cap: int) returns (kept: string)
    ensures kept == CutText(state, cap)
  {
    var cut := TruncateToBytes(RawState(state), Max(0, cap), MARKER);
    kept := cut.kept;
  }

  /** Cut the state if the request is too long even so; what is sent and its size. */
  method CutState(state: State, snippets: seq<Snippet>, paths: seq<string>, cap: int)
      returns (sentState: State, sentBytes: nat)
    ensures sentBytes == SizeOf(sentState, snippets, paths)
    ensures sentBytes <= cap <==> SizeOf(state, snippets, paths) <= cap
    ensures sentState == if sentBytes <= cap then state else Text(CutText(state, cap))
  {
    sentState, sentBytes := state, SizeOf(state, snippets, paths);
    if sentBytes > cap {
      CutStateStaysOver(state, snippets, paths, cap);
      var kept := CutTextOf(state, cap);
      sentState := Text(kept);
      sentBytes := SizeOf(sentState, snippets, paths);
    }
  }

  /**
   `filter` after its state and paths are filtered. What is sent is within the cap exactly
   when the request without any snippet is; otherwise the cut state still exceeds it.
   */
  method Filter(p: Policy, state: State, offered: seq<Snippet>, paths: seq<string>, cap: int)
      returns (sentState: State, snippets: seq<Snippet>, removed: seq<Removal>, sentBytes: nat,
               ghost kept: seq<Snippet>, ghost denied: seq<Removal>, ghost fates: Fates)
    ensures |snippets| + |removed| == |offered|
    ensures Accounted(p, offered, kept, denied, fates)
    ensures snippets <= kept && LongestThatFits(state, kept, paths, cap, |snippets|)
    ensures denied <= removed && DroppedFromTheEnd(kept, removed[|denied|..])
    ensures sentBytes == SizeOf(sentState, snippets, paths)
    ensures sentBytes <= cap <==> SizeOf(state, [], paths) <= cap
    ensures sentBytes <= cap ==> sentState == state
    ensures forall s :: s in snippets ==> Leaves(p, offered, s) && (!p.sendFilePaths ==> s.path == "")
  {
    var admitted, before;
    admitted, before, fates := FilterSnippets(p, offered);
    kept, denied := admitted, before;
    OnlyRedactedLeaves(p, offered, kept, denied, fates);
    var dropped;
    snippets, dropped := DropToFit(state, admitted, paths, cap);
    removed := before + dropped;
    sentState, sentBytes := CutState(state, snippets, paths, cap);
    LoopFitsExactlyWhenNoneDoes(state, kept, paths, cap, |snippets|);
    assert snippets == kept[..|snippets|];
    assert forall s :: s in snippets ==> s in kept;
    assert removed[|before|..] == dropped;
  }

  lemma LoopFitsExactlyWhenNoneDoes(state: State, all: seq<Snippet>, paths: seq<string>, cap: int, n: nat)
    requires LongestThatFits(state, all, paths, cap, n)
    ensures SizeOf(state, all[..n], paths) <= cap <==> SizeOf(state, [], paths) <= cap
  {
    if n == 0 {
      assert all[..0] == [];
    } else {
      FewerSnippetsAreSmaller(state, all[..n], paths);
    }
  }

  lemma FewerSnippetsAreSmaller(state: State, snippets: seq<Snippet>, paths: seq<string>)
    ensures SizeOf(state, [], paths) <= SizeOf(state, snippets, paths)
  {
    SizeSplits(state, [], paths);
    SizeSplits(state, snippets, paths);
    assert SnippetsJson([]) == [];
    assert Commas([]) == [];
  }
}
