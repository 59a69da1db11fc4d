/**
 * The similarity checker: it loads the symbol descriptions of the summary
 * file and the docstrings recovered from the extractor's JSON output, keeps
 * the pandas methods, and pairs every summary symbol with a docstring symbol,
 * by exact key or else by the last dotted segment of the key, scoring each
 * pair with a text-similarity function.
 */
module SimilarityChecker {
  import opened Wrappers
  import opened Strings
  import opened Dicts

  /** The package whose symbols the benchmark compares. */
  const PandasMethods := "pandas.core.methods"

  /** The symbol written in place of a docstring key when nothing matches. */
  const NoMatch := "NO_MATCH"

  // ---------------------------------------------------------------- summary

  /** A `## heading` section of the summary file with its `- `symbol`: description` items. */
  datatype Section = Section(heading: string, items: seq<(string, string)>)

  /** The key a summary item gets: the package, the heading up to its first dot, the symbol. */
  function SummaryKey(heading: string, symbol: string): string
  {
    PandasMethods + "." + FirstSegment(heading) + "." + symbol
  }

  /**
   * A summary key lies in the pandas methods package and, for a symbol
   * without dots, ends in that symbol, so it is found again by suffix.
   */
  lemma SummaryKeyShape(heading: string, symbol: string)
    ensures StartsWith(SummaryKey(heading, symbol), PandasMethods + ".")
    ensures Contains(SummaryKey(heading, symbol), PandasMethods)
    ensures '.' !in symbol ==> LastSegment(SummaryKey(heading, symbol)) == symbol
  {
    var key := SummaryKey(heading, symbol);
    assert key[..|PandasMethods + "."|] == PandasMethods + ".";
    assert OccursAt(key, PandasMethods, 0);
    if '.' !in symbol {
      LastSegmentOfDotted(PandasMethods + "." + FirstSegment(heading), symbol);
    }
  }

  /** A heading naming a file, such as `describe.py`, contributes only its stem to the key. */
  lemma SummaryKeyOfFileHeading(stem: string, ext: string, symbol: string)
    requires '.' !in stem
    ensures SummaryKey(stem + "." + ext, symbol) == PandasMethods + "." + stem + "." + symbol
  {
    FirstSegmentOfDotted(stem, ext);
  }

  /** The assignments `summary_data[key] = description` of one section, in order. */
  function SectionEntries(sec: Section): (r: seq<(string, string)>)
    ensures |r| == |sec.items|
    ensures forall j :: 0 <= j < |r| ==> r[j] == (SummaryKey(sec.heading, sec.items[j].0), sec.items[j].1)
  {
    seq(|sec.items|, j requires 0 <= j < |sec.items| => (SummaryKey(sec.heading, sec.items[j].0), sec.items[j].1))
  }

  /** The assignments of all sections, in file order. */
  function SummaryEntries(sections: seq<Section>): seq<(string, string)>
  {
    if sections == [] then []
    else SummaryEntries(sections[..|sections| - 1]) + SectionEntries(sections[|sections| - 1])
  }

  /** One more item of section `sec` stored. */
  lemma SummaryStep(d: Dict, sec: Section, j: nat, summary: Dict)
    requires j < |sec.items| && summary == PutAll(d, SectionEntries(sec)[..j])
    ensures Put(summary, SummaryKey(sec.heading, sec.items[j].0), sec.items[j].1)
      == PutAll(d, SectionEntries(sec)[..j + 1])
  {
    var es := SectionEntries(sec);
    assert es[..j + 1] == es[..j] + [es[j]];
    PutAllSnoc(d, es[..j], es[j]);
  }

  /** A whole section stored after the sections before `i`. */
  lemma SectionDone(sections: seq<Section>, i: nat, summary: Dict)
    requires i < |sections| && summary == PutAll(PutAll([], SummaryEntries(sections[..i])), SectionEntries(sections[i]))
    ensures summary == PutAll([], SummaryEntries(sections[..i + 1]))
  {
    assert sections[..i + 1][..i] == sections[..i];
    PutAllAppend([], SummaryEntries(sections[..i]), SectionEntries(sections[i]));
  }

  /** The inner loop of `load_summary_data`: store the items of one section, in order. */
  method StoreSection(summary0: Dict, sec: Section) returns (summary: Dict)
    ensures summary == PutAll(summary0, SectionEntries(sec))
  {
    summary := summary0;
    var j := 0;
    while j < |sec.items|
      invariant 0 <= j <= |sec.items|
      invariant summary == PutAll(summary0, SectionEntries(sec)[..j])
    {
      var symbol := sec.items[j].0;
      var description := sec.items[j].1;
      var key := SummaryKey(sec.heading, symbol);
      SummaryStep(summary0, sec, j, summary);
      summary := Put(summary, key, description);
      j := j + 1;
    }
    assert SectionEntries(sec)[..j] == SectionEntries(sec);
  }

  /**
   * `load_summary_data` after the section and item regular expressions: every
   * item is stored under its summary key, and a later duplicate key
   * overwrites the earlier description.
   */
  method LoadSummaryData(sections: seq<Section>) returns (summary: Dict)
    ensures summary == PutAll([], SummaryEntries(sections))
    ensures forall k :: Get(summary, k) == LastValue(SummaryEntries(sections), k)
  {
    summary := [];
    var i := 0;
    while i < |sections|
      invariant 0 <= i <= |sections|
      invariant summary == PutAll([], SummaryEntries(sections[..i]))
    {
      summary := StoreSection(summary, sections[i]);
      SectionDone(sections, i, summary);
      i := i + 1;
    }
    assert sections[..i] == sections;
    GetPutAllFromEmpty(SummaryEntries(sections));
  }

  // ------------------------------------------------------------- docstrings

  predicate IsComma(c: char) { c == ',' }

  predicate IsQuote(c: char) { c == '"' }

  /** `line.strip().rstrip(',')` */
  function CleanLine(line: string): string
  {
    RStrip(Trim(line), IsComma)
  }

  /** The test a cleaned line must pass to be read as a key-value pair. */
  predicate Accepted(l: string)
  {
    ':' in l && !StartsWith(l, "{") && !EndsWith(l, "}")
  }

  /** A value wrapped in quotes loses them, then `\"` becomes `"`, then `\\` becomes `\`. */
  function Unquote(v: string): string
  {
    if StartsWith(v, "\"") && EndsWith(v, "\"") then
      var inner := if |v| >= 2 then v[1..|v| - 1] else "";
      Replace(Replace(inner, "\\\"", "\""), "\\\\", "\\")
    else v
  }

  /**
   * One line of the `grep` output: skipped when blank or when the cleaned
   * line fails the test; otherwise the key is the text before the first
   * colon, stripped of blanks and then of quotes, and the value the text
   * after it, stripped of blanks and unquoted.
   */
  function ParseLine(line: string): Option<(string, string)>
  {
    var l := CleanLine(line);
    if Trim(line) != [] && Accepted(l) then
      var i := IndexOf(l, ':').value;
      var key := Strip(Trim(l[..i]), IsQuote);
      Some((key, Unquote(Trim(l[i + 1..]))))
    else None
  }

  /**
   * A line yields an entry exactly when it is not blank and its cleaned form
   * passes the test; the key then holds no colon and neither starts nor ends
   * with a quote.
   */
  lemma ParseLineMeaning(line: string)
    ensures ParseLine(line).Some? <==> Trim(line) != [] && Accepted(CleanLine(line))
    ensures ParseLine(line).Some? ==> var key := ParseLine(line).value.0;
      ':' !in key && (key == [] || (key[0] != '"' && key[|key| - 1] != '"'))
  {
    var l := CleanLine(line);
    if Trim(line) != [] && Accepted(l) {
      var i := IndexOf(l, ':').value;
      var t := Trim(l[..i]);
      IndexOfFirst(l, ':');
      StripShape(l[..i], IsSpace);
      StripShape(t, IsQuote);
    }
  }

  /** A lower-case hexadecimal digit. */
  function HexDigit(d: nat): (r: char)
    requires d < 16
    ensures '0' <= r <= '9' || 'a' <= r <= 'f'
  {
    if d < 10 then ('0' as int + d) as char else ('a' as int + d - 10) as char
  }

  /**
   * How `json.dump` writes a control character: `\n`, `\r`, `\t`, `\b` or
   * `\f` where JSON has a short form, otherwise `\u00` and two hex digits.
   */
  function ControlEscape(c: char): (r: string)
    requires c < ' '
    ensures |r| >= 2 && r[0] == '\\'
    ensures forall i :: 1 <= i < |r| ==> '0' <= r[i] <= '9' || 'a' <= r[i] <= 'z'
  {
    if c == '\n' then "\\n"
    else if c == '\r' then "\\r"
    else if c == '\t' then "\\t"
    else if c == '\U{8}' then "\\b"
    else if c == '\U{c}' then "\\f"
    else "\\u00" + [HexDigit(c as int / 16), HexDigit(c as int % 16)]
  }

  /** A character as it is left by the loader's unescaping: a control character keeps its escape. */
  function KeptChar(c: char): string
  {
    if c < ' ' then ControlEscape(c) else [c]
  }

  /** How `json.dump(..., ensure_ascii=False)` writes one character of a string. */
  function EscapeChar(c: char): (r: string)
    ensures |r| >= 1 && r[0] != '"'
  {
    if c == '\\' then "\\\\" else if c == '"' then "\\\"" else KeptChar(c)
  }

  /** The inside of a string as `json.dump` writes it: `\`, `"` and control characters escaped. */
  function Escape(v: string): (r: string)
    ensures r == [] || r[0] != '"'
  {
    if v == [] then [] else EscapeChar(v[0]) + Escape(v[1..])
  }

  /** `Escape(v)` after its `\"` have become `"`: the backslashes are still doubled. */
  function HalfEscaped(v: string): string
  {
    if v == [] then []
    else (if v[0] == '\\' then "\\\\" else KeptChar(v[0])) + HalfEscaped(v[1..])
  }

  /** What the loader makes of `Escape(v)`: `v` with each control character still escaped. */
  function KeptEscapes(v: string): string
  {
    if v == [] then [] else KeptChar(v[0]) + KeptEscapes(v[1..])
  }

  lemma {:induction false} UnescapeQuotes(v: string)
    ensures Replace(Escape(v), "\\\"", "\"") == HalfEscaped(v)
  {
    var pat, q := "\\\"", "\"";
    if v != [] {
      var e := Escape(v[1..]);
      UnescapeQuotes(v[1..]);
      if v[0] == '\\' {
        EscapedBackslash(e, pat, q);
      } else if v[0] == '"' {
        ReplaceHit(pat, e, q);
      } else if v[0] < ' ' {
        ReplaceKeepWord(ControlEscape(v[0]), e, pat, q);
      } else {
        ReplaceKeepHead(v[0], e, pat, q);
      }
    }
  }

  /** A doubled backslash in front of an escaped text is kept, as its second half cannot start `\"`. */
  lemma EscapedBackslash(e: string, pat: string, q: string)
    requires pat == "\\\"" && (e == [] || e[0] != '"')
    ensures Replace("\\\\" + e, pat, q) == "\\\\" + Replace(e, pat, q)
  {
    assert "\\\\" + e == ['\\'] + (['\\'] + e);
    ReplaceKeepHead('\\', ['\\'] + e, pat, q);
    ReplaceKeepHead('\\', e, pat, q);
  }

  lemma {:induction false} UnescapeBackslashes(v: string)
    ensures Replace(HalfEscaped(v), "\\\\", "\\") == KeptEscapes(v)
  {
    var pat, b := "\\\\", "\\";
    if v != [] {
      var h := HalfEscaped(v[1..]);
      UnescapeBackslashes(v[1..]);
      if v[0] == '\\' {
        ReplaceHit(pat, h, b);
      } else if v[0] < ' ' {
        ReplaceKeepWord(ControlEscape(v[0]), h, pat, b);
      } else {
        ReplaceKeepHead(v[0], h, pat, b);
      }
    }
  }

  /**
   * Unquoting undoes the quoting of `json.dump` and its escaping of `\` and
   * `"`, but leaves the escape of each control character as written; a string
   * without control characters is restored exactly.
   */
  lemma UnquoteEscaped(v: string)
    ensures Unquote(JsonString(v)) == KeptEscapes(v)
    ensures (forall i :: 0 <= i < |v| ==> v[i] >= ' ') ==> Unquote(JsonString(v)) == v
  {
    UnquoteJsonString(v);
    UnescapeQuotes(v);
    UnescapeBackslashes(v);
    if forall i :: 0 <= i < |v| ==> v[i] >= ' ' {
      KeptEscapesPlain(v);
    }
  }

  /** The quotes `json.dump` puts around a string are the ones `Unquote` removes. */
  lemma UnquoteJsonString(v: string)
    ensures Unquote(JsonString(v)) == Replace(Replace(Escape(v), "\\\"", "\""), "\\\\", "\\")
  {
    var q := JsonString(v);
    assert q[1..|q| - 1] == Escape(v);
  }

  lemma {:induction false} KeptEscapesPlain(v: string)
    requires forall i :: 0 <= i < |v| ==> v[i] >= ' '
    ensures KeptEscapes(v) == v
  {
    if v != [] {
      KeptEscapesPlain(v[1..]);
      assert v == [v[0]] + v[1..];
    }
  }

  /** So a docstring spread over two lines comes back holding a backslash and an `n` instead. */
  lemma MultiLineValueKeepsEscape()
    ensures Unquote(JsonString("a\nb")) == "a\\nb" != "a\nb"
  {
    UnquoteEscaped("a\nb");
    assert "a\nb" == ['a'] + ("\n" + "b");
    assert "b" == ['b'] + [];
  }

  /** The escaped text of a string holds a quote or a colon only where the string does. */
  lemma {:induction false} EscapeFreeOf(v: string)
    requires ':' !in v && '"' !in v
    ensures ':' !in Escape(v) && '"' !in Escape(v)
  {
    if v != [] {
      EscapeFreeOf(v[1..]);
      assert ':' !in EscapeChar(v[0]) && '"' !in EscapeChar(v[0]);
    }
  }

  /** A string with no backslash, quote or control character is written as it is. */
  lemma {:induction false} EscapePlain(v: string)
    requires forall i :: 0 <= i < |v| ==> v[i] >= ' ' && v[i] != '\\' && v[i] != '"'
    ensures Escape(v) == v
  {
    if v != [] {
      EscapePlain(v[1..]);
      assert v == [v[0]] + v[1..];
    }
  }

  lemma QuotedKey(key: string)
    requires '"' !in key
    ensures Strip(Trim("\"" + key + "\""), IsQuote) == key
  {
    var q := "\"" + key + "\"";
    StripKeepsClean(q, IsSpace);
    if key == [] {
      assert RStrip(q, IsQuote) == [];
    } else {
      RStripDropped("\"" + key, "\"", IsQuote);
      LStripDropped("\"", key, IsQuote);
    }
  }

  /** Blanks in front of a text that neither starts nor ends with a blank are what `strip()` removes. */
  lemma TrimIndented(indent: string, body: string)
    requires forall i :: 0 <= i < |indent| ==> IsSpace(indent[i])
    requires |body| > 0 && !IsSpace(body[0]) && !IsSpace(body[|body| - 1])
    ensures Trim(indent + body) == body
  {
    assert indent + body + [] == indent + body;
    RStripDropped(indent + body, [], IsSpace);
    LStripDropped(indent, body, IsSpace);
  }

  /** Blanks in front and a trailing comma are cleaned off a line that is quoted at both ends. */
  lemma CleanQuotedLine(indent: string, l: string, comma: string)
    requires forall i :: 0 <= i < |indent| ==> IsSpace(indent[i])
    requires |l| >= 2 && l[0] == '"' && l[|l| - 1] == '"'
    requires comma == "" || comma == ","
    ensures CleanLine(indent + l + comma) == l
  {
    var body := l + comma;
    assert indent + l + comma == indent + body;
    assert body[0] == '"' && body[|body| - 1] in "\",";
    TrimIndented(indent, body);
    assert forall i :: 0 <= i < |comma| ==> IsComma(comma[i]);
    RStripDropped(l, comma, IsComma);
  }

  /** A line with a colon that starts and ends with a quote passes the test. */
  lemma QuotedLineAccepted(l: string)
    requires ':' in l && |l| > 0 && l[0] == '"' && l[|l| - 1] == '"'
    ensures Accepted(l)
  {
    assert l[..1][0] == '"';
    assert l[|l| - 1..][0] == '"';
  }

  /** In `"key": value` the first colon follows the quoted key. */
  lemma KeyColon(key: string, value: string)
    requires ':' !in key
    ensures var l := "\"" + key + "\": " + value;
      && IndexOf(l, ':') == Some(|key| + 2)
      && l[..|key| + 2] == "\"" + key + "\""
      && l[|key| + 3..] == " " + value
  {
    var l := "\"" + key + "\": " + value;
    var i := |key| + 2;
    assert l[i] == ':' && l[..i] == "\"" + key + "\"";
    assert ':' !in l[..i];
    IndexOfAt(l, ':', i);
    assert l[i + 1..] == " " + value;
  }

  /** A string as `json.dump` writes it: escaped and quoted. */
  function JsonString(v: string): (r: string)
    ensures |r| >= 2 && r[0] == '"' && r[|r| - 1] == '"'
  {
    "\"" + Escape(v) + "\""
  }

  /** One `"key": value` member of a JSON object. */
  function JsonMember(key: string, v: string): (r: string)
    ensures |r| >= 2 && r[0] == '"' && r[|r| - 1] == '"'
  {
    JsonString(key) + ": " + JsonString(v)
  }

  /**
   * A line `json.dump(..., indent=2)` writes for an entry whose key has no
   * colon and no quote is read back as the escaped key and the value with its
   * control characters still escaped; a key and a value without backslashes
   * and control characters come back as they were.
   */
  lemma ParseJsonLine(indent: string, key: string, v: string, comma: string)
    requires forall i :: 0 <= i < |indent| ==> IsSpace(indent[i])
    requires ':' !in key && '"' !in key
    requires comma == "" || comma == ","
    ensures ParseLine(indent + JsonMember(key, v) + comma) == Some((Escape(key), KeptEscapes(v)))
    ensures ((forall i :: 0 <= i < |key| ==> key[i] >= ' ' && key[i] != '\\') &&
             (forall i :: 0 <= i < |v| ==> v[i] >= ' ')) ==>
      ParseLine(indent + JsonMember(key, v) + comma) == Some((key, v))
  {
    ParseJsonMember(indent, key, v, comma);
    if forall i :: 0 <= i < |key| ==> key[i] >= ' ' && key[i] != '\\' {
      EscapePlain(key);
    }
    if forall i :: 0 <= i < |v| ==> v[i] >= ' ' {
      KeptEscapesPlain(v);
    }
  }

  lemma ParseJsonMember(indent: string, key: string, v: string, comma: string)
    requires forall i :: 0 <= i < |indent| ==> IsSpace(indent[i])
    requires ':' !in key && '"' !in key
    requires comma == "" || comma == ","
    ensures ParseLine(indent + JsonMember(key, v) + comma) == Some((Escape(key), KeptEscapes(v)))
  {
    var l := JsonMember(key, v);
    JsonLineCleans(indent, l, comma);
    JsonMemberParts(key, v);
    ParseCleanLine(indent + l + comma, l, |Escape(key)| + 2);
  }

  lemma JsonLineCleans(indent: string, l: string, comma: string)
    requires forall i :: 0 <= i < |indent| ==> IsSpace(indent[i])
    requires |l| >= 2 && l[0] == '"' && l[|l| - 1] == '"'
    requires comma == "" || comma == ","
    ensures CleanLine(indent + l + comma) == l && Trim(indent + l + comma) != []
  {
    CleanQuotedLine(indent, l, comma);
    assert |Trim(indent + l + comma)| >= |CleanLine(indent + l + comma)|;
  }

  lemma JsonMemberParts(key: string, v: string)
    requires ':' !in key && '"' !in key
    ensures var l, i := JsonMember(key, v), |Escape(key)| + 2;
      && Accepted(l) && IndexOf(l, ':') == Some(i)
      && Strip(Trim(l[..i]), IsQuote) == Escape(key) && Unquote(Trim(l[i + 1..])) == KeptEscapes(v)
  {
    EscapeFreeOf(key);
    JsonMemberSpelled(key, v);
    QuotedMemberParts(Escape(key), v);
  }

  lemma JsonMemberSpelled(key: string, v: string)
    ensures JsonMember(key, v) == "\"" + Escape(key) + "\": " + JsonString(v)
  {
  }

  /** The parts of `"k": value` for an already escaped key `k`. */
  lemma QuotedMemberParts(k: string, v: string)
    requires ':' !in k && '"' !in k
    ensures var l, i := "\"" + k + "\": " + JsonString(v), |k| + 2;
      && Accepted(l) && IndexOf(l, ':') == Some(i)
      && Strip(Trim(l[..i]), IsQuote) == k && Unquote(Trim(l[i + 1..])) == KeptEscapes(v)
  {
    var value := JsonString(v);
    var l := "\"" + k + "\": " + value;
    KeyColon(k, value);
    QuotedLineAccepted(l);
    TrimIndented(" ", value);
    QuotedKey(k);
    UnquoteEscaped(v);
  }

  /** `ParseLine` once the cleaned line and its first colon are known. */
  lemma ParseCleanLine(line: string, l: string, i: nat)
    requires CleanLine(line) == l && Trim(line) != [] && Accepted(l) && IndexOf(l, ':') == Some(i)
    ensures ParseLine(line) == Some((Strip(Trim(l[..i]), IsQuote), Unquote(Trim(l[i + 1..]))))
  {
  }

  /** The lines of the `grep` output, as Python splits them. */
  function GrepLines(stdout: string): seq<string>
  {
    Split(Trim(stdout), '\n')
  }

  /** The assignment a parsed line makes: none, or one. */
  function Written(p: Option<(string, string)>): seq<(string, string)>
  {
    if p.Some? then [p.value] else []
  }

  /** The assignments `docstrings_data[key] = value` the parsed lines make, in order. */
  function ParsedEntries(lines: seq<string>): (r: seq<(string, string)>)
    ensures |r| <= |lines|
  {
    if lines == [] then []
    else ParsedEntries(lines[..|lines| - 1]) + Written(ParseLine(lines[|lines| - 1]))
  }

  lemma ParsedEntriesStep(lines: seq<string>, i: nat)
    requires i < |lines|
    ensures ParsedEntries(lines[..i + 1]) == ParsedEntries(lines[..i]) + Written(ParseLine(lines[i]))
  {
    assert lines[..i + 1][..i] == lines[..i] && lines[..i + 1][i] == lines[i];
  }

  /** Storing what one parsed line writes. */
  lemma PutWritten(es: seq<(string, string)>, p: Option<(string, string)>)
    ensures PutAll([], es + Written(p)) == if p.Some? then Put(PutAll([], es), p.value.0, p.value.1) else PutAll([], es)
  {
    if p.Some? {
      PutAllSnoc([], es, p.value);
    } else {
      assert es + [] == es;
    }
  }

  /**
   * `load_docstrings_data` on the captured output of `grep`: every accepted
   * line is stored, and a later line with the same key overwrites an earlier one.
   */
  method LoadDocstringsData(stdout: string) returns (docs: Dict)
    ensures docs == PutAll([], ParsedEntries(GrepLines(stdout)))
    ensures forall k :: Get(docs, k) == LastValue(ParsedEntries(GrepLines(stdout)), k)
  {
    var lines := GrepLines(stdout);
    docs := [];
    var i := 0;
    while i < |lines|
      invariant 0 <= i <= |lines|
      invariant docs == PutAll([], ParsedEntries(lines[..i]))
    {
      var parsed := ParseLine(lines[i]);
      ParsedEntriesStep(lines, i);
      PutWritten(ParsedEntries(lines[..i]), parsed);
      if parsed.Some? {
        docs := Put(docs, parsed.value.0, parsed.value.1);
      }
      i := i + 1;
    }
    assert lines[..i] == lines;
    GetPutAllFromEmpty(ParsedEntries(lines));
  }

  // ----------------------------------------------------------------- filter

  /** The entries whose key mentions the pandas methods package, in order. */
  function PandasEntries(es: seq<(string, string)>): (r: seq<(string, string)>)
    ensures forall k :: k in Keys(r) ==> k in Keys(es) && Contains(k, PandasMethods)
  {
    if es == [] then []
    else
      var e := es[|es| - 1];
      var r := PandasEntries(es[..|es| - 1]) + (if Contains(e.0, PandasMethods) then [e] else []);
      assert forall k :: k in Keys(es[..|es| - 1]) ==> k in Keys(es);
      r
  }

  /** Filtering keeps exactly the pandas keys, with their values. */
  lemma PandasEntriesGet(d: Dict, k: string)
    requires DistinctKeys(d)
    ensures Get(PandasEntries(d), k) == if Contains(k, PandasMethods) then Get(d, k) else None
  {
    LastValueOfDict(d, k);
    PandasLastValue(d, k);
    PandasEntriesDistinct(d);
    LastValueOfDict(PandasEntries(d), k);
  }

  lemma {:induction false} PandasLastValue(es: seq<(string, string)>, k: string)
    ensures LastValue(PandasEntries(es), k) == if Contains(k, PandasMethods) then LastValue(es, k) else None
  {
    if es != [] {
      var n := |es| - 1;
      PandasLastValue(es[..n], k);
      var p := PandasEntries(es[..n]);
      if Contains(es[n].0, PandasMethods) {
        assert (p + [es[n]])[..|p|] == p;
      } else {
        assert PandasEntries(es) == p;
      }
    }
  }

  lemma {:induction false} PandasEntriesDistinct(d: Dict)
    requires DistinctKeys(d)
    ensures DistinctKeys(PandasEntries(d))
  {
    if d != [] {
      var n := |d| - 1;
      DistinctPrefix(d, n);
      PandasEntriesDistinct(d[..n]);
      var p := PandasEntries(d[..n]);
      if Contains(d[n].0, PandasMethods) {
        assert d[n].0 !in Keys(p);
        assert PandasEntries(d) == p + [d[n]];
        DistinctSnoc(p, d[n]);
      } else {
        assert PandasEntries(d) == p;
      }
    }
  }

  /** `extract_pandas_symbols`: the entries whose key contains the package name, in order. */
  method ExtractPandasSymbols(docs: Dict) returns (pandas: Dict)
    ensures pandas == PutAll([], PandasEntries(docs))
    ensures DistinctKeys(docs) ==> pandas == PandasEntries(docs)
  {
    pandas := [];
    var i := 0;
    while i < |docs|
      invariant 0 <= i <= |docs|
      invariant pandas == PutAll([], PandasEntries(docs[..i]))
    {
      PandasStep(docs, i, pandas);
      var key := docs[i].0;
      if Contains(key, PandasMethods) {
        pandas := Put(pandas, key, docs[i].1);
      }
      i := i + 1;
    }
    assert docs[..i] == docs;
    if DistinctKeys(docs) {
      PandasEntriesDistinct(docs);
      PutAllFresh(PandasEntries(docs));
    }
  }

  /** One more entry of the filter's input: it is stored exactly when its key mentions the package. */
  lemma PandasStep(docs: Dict, i: nat, pandas: Dict)
    requires i < |docs| && pandas == PutAll([], PandasEntries(docs[..i]))
    ensures PutAll([], PandasEntries(docs[..i + 1])) ==
      if Contains(docs[i].0, PandasMethods) then Put(pandas, docs[i].0, docs[i].1) else pandas
  {
    var p := PandasEntries(docs[..i]);
    assert docs[..i + 1][..i] == docs[..i];
    if Contains(docs[i].0, PandasMethods) {
      assert PandasEntries(docs[..i + 1]) == p + [docs[i]];
      PutAllSnoc([], p, docs[i]);
    } else {
      assert PandasEntries(docs[..i + 1]) == p;
    }
  }

  // ------------------------------------------------------------- similarity

  /** The vectorise-and-compare step: `None` when the vectoriser raises. */
  type Cosine = (string, string) -> Option<real>

  /**
   * `calculate_similarity`: 0.0 when either text is empty, without
   * vectorising; 0.0 when vectorising fails; otherwise the cosine.
   */
  function CalculateSimilarity(cosine: Cosine, a: string, b: string): (r: real)
    ensures a == [] || b == [] ==> r == 0.0
    ensures cosine(a, b).None? ==> r == 0.0
    ensures r != 0.0 ==> a != [] && b != [] && cosine(a, b) == Some(r)
  {
    if a == [] || b == [] then 0.0
    else match cosine(a, b)
      case None => 0.0
      case Some(x) => x
  }

  // --------------------------------------------------------------- matching

  datatype MatchResult = MatchResult(
    summarySymbol: string,
    docstringSymbol: string,
    similarity: real,
    summaryDescription: string,
    docstringDescription: string)

  /** `best_match`, `best_similarity` and `best_docstring_desc` during the suffix search. */
  datatype Best = Best(key: Option<string>, score: real, desc: string)

  /** A docstring entry is a candidate when its key has the summary key's last segment. */
  predicate IsCandidate(suffix: string, e: (string, string))
  {
    LastSegment(e.0) == suffix
  }

  /** The suffix search over `es`: a candidate replaces the best so far only when it scores strictly higher. */
  function Scan(cosine: Cosine, text: string, suffix: string, es: seq<(string, string)>): Best
  {
    if es == [] then Best(None, 0.0, "")
    else
      var b := Scan(cosine, text, suffix, es[..|es| - 1]);
      var e := es[|es| - 1];
      var sim := CalculateSimilarity(cosine, text, e.1);
      if IsCandidate(suffix, e) && sim > b.score then Best(Some(e.0), sim, e.1) else b
  }

  /**
   * `es[j]` wins the suffix search: a candidate with a positive score, none
   * scoring more, and every earlier candidate scoring strictly less.
   */
  predicate Winner(cosine: Cosine, text: string, suffix: string, es: seq<(string, string)>, j: nat)
  {
    && j < |es| && IsCandidate(suffix, es[j])
    && CalculateSimilarity(cosine, text, es[j].1) > 0.0
    && (forall i :: 0 <= i < |es| && IsCandidate(suffix, es[i]) ==>
          CalculateSimilarity(cosine, text, es[i].1) <= CalculateSimilarity(cosine, text, es[j].1))
    && (forall i :: 0 <= i < j && IsCandidate(suffix, es[i]) ==>
          CalculateSimilarity(cosine, text, es[i].1) < CalculateSimilarity(cosine, text, es[j].1))
  }

  /** At most one entry wins: ties go to the earliest candidate. */
  lemma WinnerUnique(cosine: Cosine, text: string, suffix: string, es: seq<(string, string)>, j: nat, k: nat)
    requires Winner(cosine, text, suffix, es, j) && Winner(cosine, text, suffix, es, k)
    ensures j == k
  {
  }

  /**
   * The score the suffix search keeps is positive unless nothing was kept,
   * and no candidate scores above it.
   */
  lemma {:induction false} ScanBound(cosine: Cosine, text: string, suffix: string, es: seq<(string, string)>)
    ensures var b := Scan(cosine, text, suffix, es);
      && (b.key.None? ==> b == Best(None, 0.0, ""))
      && (b.key.Some? ==> b.score > 0.0)
      && forall i :: 0 <= i < |es| && IsCandidate(suffix, es[i]) ==> CalculateSimilarity(cosine, text, es[i].1) <= b.score
  {
    if es != [] {
      var n := |es| - 1;
      ScanBound(cosine, text, suffix, es[..n]);
      assert forall i :: 0 <= i < n ==> es[i] == es[..n][i];
    }
  }

  /** A winner of the entries before the last one stays the winner when the last one does not beat it. */
  lemma WinnerKept(cosine: Cosine, text: string, suffix: string, es: seq<(string, string)>, j: nat)
    requires es != [] && Winner(cosine, text, suffix, es[..|es| - 1], j)
    requires !(IsCandidate(suffix, es[|es| - 1]) &&
      CalculateSimilarity(cosine, text, es[|es| - 1].1) > CalculateSimilarity(cosine, text, es[j].1))
    ensures Winner(cosine, text, suffix, es, j)
  {
    assert forall i :: 0 <= i < |es| - 1 ==> es[i] == es[..|es| - 1][i];
  }

  /** The last entry wins when it is a candidate scoring more than every earlier candidate and than zero. */
  lemma WinnerLast(cosine: Cosine, text: string, suffix: string, es: seq<(string, string)>, bound: real)
    requires es != [] && IsCandidate(suffix, es[|es| - 1]) && bound >= 0.0
    requires CalculateSimilarity(cosine, text, es[|es| - 1].1) > bound
    requires forall i :: 0 <= i < |es| - 1 && IsCandidate(suffix, es[i]) ==>
      CalculateSimilarity(cosine, text, es[i].1) <= bound
    ensures Winner(cosine, text, suffix, es, |es| - 1)
  {
  }

  /** When the suffix search keeps an entry, that entry is the winner. */
  lemma {:induction false} ScanKeepsWinner(cosine: Cosine, text: string, suffix: string, es: seq<(string, string)>)
    ensures var b := Scan(cosine, text, suffix, es);
      b.key.Some? ==> exists j: nat :: (Winner(cosine, text, suffix, es, j) &&
        b == Best(Some(es[j].0), CalculateSimilarity(cosine, text, es[j].1), es[j].1))
  {
    if es != [] {
      var n := |es| - 1;
      var prefix := es[..n];
      var b0 := Scan(cosine, text, suffix, prefix);
      var e := es[n];
      var sim := CalculateSimilarity(cosine, text, e.1);
      if IsCandidate(suffix, e) && sim > b0.score {
        ScanBound(cosine, text, suffix, prefix);
        assert forall i :: 0 <= i < n ==> es[i] == prefix[i];
        WinnerLast(cosine, text, suffix, es, b0.score);
      } else if b0.key.Some? {
        ScanKeepsWinner(cosine, text, suffix, prefix);
        var j: nat :| Winner(cosine, text, suffix, prefix, j) &&
          b0 == Best(Some(prefix[j].0), CalculateSimilarity(cosine, text, prefix[j].1), prefix[j].1);
        assert prefix[j] == es[j];
        WinnerKept(cosine, text, suffix, es, j);
      }
    }
  }

  /**
   * The suffix search keeps nothing exactly when no candidate scores above
   * zero; otherwise it keeps the winner, with its score and its text.
   */
  lemma ScanFindsWinner(cosine: Cosine, text: string, suffix: string, es: seq<(string, string)>)
    ensures var b := Scan(cosine, text, suffix, es);
      && (b.key.None? <==> forall i :: 0 <= i < |es| && IsCandidate(suffix, es[i]) ==>
            CalculateSimilarity(cosine, text, es[i].1) <= 0.0)
      && (b.key.None? ==> b == Best(None, 0.0, ""))
      && (b.key.Some? ==>
            exists j: nat :: (Winner(cosine, text, suffix, es, j) &&
              b == Best(Some(es[j].0), CalculateSimilarity(cosine, text, es[j].1), es[j].1)))
  {
    ScanBound(cosine, text, suffix, es);
    ScanKeepsWinner(cosine, text, suffix, es);
  }

  /** The result `match_symbols` appends for the summary entry `(key, text)`. */
  function MatchOne(cosine: Cosine, docs: Dict, entry: (string, string)): MatchResult
  {
    var key := entry.0;
    var text := entry.1;
    if key in Keys(docs) then
      var desc := Get(docs, key).value;
      MatchResult(key, key, CalculateSimilarity(cosine, text, desc), text, desc)
    else
      var b := Scan(cosine, text, LastSegment(key), docs);
      if b.key.Some? && b.key.value != "" then MatchResult(key, b.key.value, b.score, text, b.desc)
      else MatchResult(key, NoMatch, 0.0, text, "")
  }

  /** One result per summary entry, in the summary's order. */
  function Matches(cosine: Cosine, summary: Dict, docs: Dict): (r: seq<MatchResult>)
    ensures |r| == |summary| && forall k :: 0 <= k < |summary| ==> r[k] == MatchOne(cosine, docs, summary[k])
  {
    seq(|summary|, k requires 0 <= k < |summary| => MatchOne(cosine, docs, summary[k]))
  }

  /** `match_symbols` */
  method MatchSymbols(cosine: Cosine, summary: Dict, docs: Dict) returns (results: seq<MatchResult>)
    ensures results == Matches(cosine, summary, docs)
  {
    results := [];
    var i := 0;
    while i < |summary|
      invariant 0 <= i <= |summary| && |results| == i
      invariant forall k :: 0 <= k < i ==> results[k] == MatchOne(cosine, docs, summary[k])
    {
      var summaryKey := summary[i].0;
      var summaryDesc := summary[i].1;
      var bestMatch: Option<string> := None;
      var bestSimilarity := 0.0;
      var bestDocstringDesc := "";
      if summaryKey in Keys(docs) {
        var docstringDesc := Get(docs, summaryKey).value;
        var similarity := CalculateSimilarity(cosine, summaryDesc, docstringDesc);
        results := results + [MatchResult(summaryKey, summaryKey, similarity, summaryDesc, docstringDesc)];
      } else {
        var summarySuffix := LastSegment(summaryKey);
        var j := 0;
        while j < |docs|
          invariant 0 <= j <= |docs|
          invariant Best(bestMatch, bestSimilarity, bestDocstringDesc) == Scan(cosine, summaryDesc, summarySuffix, docs[..j])
        {
          assert docs[..j + 1][..j] == docs[..j];
          var docstringKey := docs[j].0;
          var docstringDesc := docs[j].1;
          var docstringSuffix := LastSegment(docstringKey);
          if summarySuffix == docstringSuffix {
            var similarity := CalculateSimilarity(cosine, summaryDesc, docstringDesc);
            if similarity > bestSimilarity {
              bestSimilarity := similarity;
              bestMatch := Some(docstringKey);
              bestDocstringDesc := docstringDesc;
            }
          }
          j := j + 1;
        }
        assert docs[..j] == docs;
        if bestMatch.Some? && bestMatch.value != "" {
          results := results + [MatchResult(summaryKey, bestMatch.value, bestSimilarity, summaryDesc, bestDocstringDesc)];
        } else {
          results := results + [MatchResult(summaryKey, NoMatch, 0.0, summaryDesc, "")];
        }
      }
      i := i + 1;
    }
  }

  /**
   * What a result says.  It carries the summary entry.  An exact key match
   * is taken whatever its score.  Otherwise the winner of the suffix search
   * is reported with its score and text when its key is non-empty, and the
   * sentinel with score 0.0 and no text when there is no winner or the
   * winner's key is the empty string (which Python's `if best_match:` reads
   * as false).
   */
  lemma MatchOneMeaning(cosine: Cosine, docs: Dict, entry: (string, string))
    ensures var r := MatchOne(cosine, docs, entry);
      && r.summarySymbol == entry.0 && r.summaryDescription == entry.1
      && (entry.0 in Keys(docs) ==>
            && r.docstringSymbol == entry.0
            && Some(r.docstringDescription) == Get(docs, entry.0)
            && r.similarity == CalculateSimilarity(cosine, entry.1, r.docstringDescription))
      && (entry.0 !in Keys(docs) ==>
            && (forall j: nat :: Winner(cosine, entry.1, LastSegment(entry.0), docs, j) && docs[j].0 != "" ==>
                  r == MatchResult(entry.0, docs[j].0, CalculateSimilarity(cosine, entry.1, docs[j].1), entry.1, docs[j].1))
            && ((forall j: nat :: Winner(cosine, entry.1, LastSegment(entry.0), docs, j) ==> docs[j].0 == "") ==>
                  r == MatchResult(entry.0, NoMatch, 0.0, entry.1, "")))
  {
    var suffix := LastSegment(entry.0);
    ScanFindsWinner(cosine, entry.1, suffix, docs);
    forall j: nat, k: nat | Winner(cosine, entry.1, suffix, docs, j) && Winner(cosine, entry.1, suffix, docs, k)
      ensures j == k
    {
      WinnerUnique(cosine, entry.1, suffix, docs, j, k);
    }
  }

  /**
   * A result from the suffix search names a docstring key with the same last
   * segment and a positive score; so a fuzzy result never has score 0.
   */
  lemma FuzzyMatchIsPositive(cosine: Cosine, docs: Dict, entry: (string, string))
    requires entry.0 !in Keys(docs)
    ensures var r := MatchOne(cosine, docs, entry);
      r == MatchResult(entry.0, NoMatch, 0.0, entry.1, "") ||
      (&& r.docstringSymbol in Keys(docs) && r.docstringSymbol != ""
       && LastSegment(r.docstringSymbol) == LastSegment(entry.0)
       && r.similarity > 0.0
       && (DistinctKeys(docs) ==> Some(r.docstringDescription) == Get(docs, r.docstringSymbol)))
  {
    var suffix := LastSegment(entry.0);
    ScanFindsWinner(cosine, entry.1, suffix, docs);
    var b := Scan(cosine, entry.1, suffix, docs);
    if b.key.Some? && b.key.value != "" {
      var j: nat :| Winner(cosine, entry.1, suffix, docs, j) &&
        b == Best(Some(docs[j].0), CalculateSimilarity(cosine, entry.1, docs[j].1), docs[j].1);
      if DistinctKeys(docs) {
        GetAt(docs, j);
      }
    }
  }

  /** With no candidate at all, the result is the sentinel. */
  lemma NoCandidateNoMatch(cosine: Cosine, docs: Dict, entry: (string, string))
    requires entry.0 !in Keys(docs)
    requires forall i :: 0 <= i < |docs| ==> !IsCandidate(LastSegment(entry.0), docs[i])
    ensures MatchOne(cosine, docs, entry) == MatchResult(entry.0, NoMatch, 0.0, entry.1, "")
  {
    ScanFindsWinner(cosine, entry.1, LastSegment(entry.0), docs);
  }

  /**
   * A docstring key that is the empty string never matches: for the summary
   * key `frame.`, whose last segment is empty, the only candidate scores 1.0
   * and the result is still the sentinel.
   */
  lemma EmptyKeyIsNoMatch()
    ensures MatchOne((a: string, b: string) => Some(1.0), [("", "text")], ("frame.", "text"))
      == MatchResult("frame.", NoMatch, 0.0, "text", "")
  {
    LastSegmentOfDotted("frame", "");
    assert "frame" + "." + "" == "frame.";
    assert LastSegment("") == "";
    var docs: Dict := [("", "text")];
    assert "frame." !in Keys(docs);
    assert docs[..0] == [];
  }
}
