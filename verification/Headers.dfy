/** Target headers as edited in a form: one key and value on each line. */
module Headers {
  import opened Lex

  type Pairs = map<string, string>

  // --------------------------------------------------- the strings package

  /** White space as `unicode.IsSpace` defines it. */
  predicate IsSpace(c: char) {
    || '\t' <= c <= '\r' || c == ' ' || c == '\U{85}' || c == '\U{A0}' || c == '\U{1680}'
    || '\U{2000}' <= c <= '\U{200A}' || c == '\U{2028}' || c == '\U{2029}' || c == '\U{202F}'
    || c == '\U{205F}' || c == '\U{3000}'
  }

  function TrimLeft(s: string): string {
    if s != "" && IsSpace(s[0]) then TrimLeft(s[1..]) else s
  }

  function TrimRight(s: string): string {
    if s != "" && IsSpace(s[|s| - 1]) then TrimRight(s[..|s| - 1]) else s
  }

  /** `strings.TrimSpace`. */
  function TrimSpace(s: string): string {
    TrimRight(TrimLeft(s))
  }

  predicate Trimmed(s: string) {
    s == "" || (!IsSpace(s[0]) && !IsSpace(s[|s| - 1]))
  }

  lemma {:induction false} TrimLeftFacts(s: string)
    ensures var t := TrimLeft(s); (t == "" || !IsSpace(t[0])) && forall c :: c in t ==> c in s
  {
    if s != "" && IsSpace(s[0]) { TrimLeftFacts(s[1..]); }
  }

  lemma {:induction false} TrimRightFacts(s: string)
    ensures var t := TrimRight(s); (t == "" || !IsSpace(t[|t| - 1])) && forall c :: c in t ==> c in s
    ensures TrimRight(s) <= s
  {
    if s != "" && IsSpace(s[|s| - 1]) { TrimRightFacts(s[..|s| - 1]); }
  }

  lemma TrimFacts(s: string)
    ensures Trimmed(TrimSpace(s))
    ensures forall c :: c in TrimSpace(s) ==> c in s
    ensures Trimmed(s) ==> TrimSpace(s) == s
  {
    TrimLeftFacts(s);
    TrimRightFacts(TrimLeft(s));
  }

  /** `strings.Cut` at a one-character separator. */
  function Cut(s: string, sep: char): Option<(string, string)> {
    if s == "" then None
    else if s[0] == sep then Some(("", s[1..]))
    else match Cut(s[1..], sep)
      case None => None
      case Some((before, after)) => Some(([s[0]] + before, after))
  }

  lemma {:induction false} CutFacts(s: string, sep: char)
    ensures Cut(s, sep).None? <==> sep !in s
    ensures Cut(s, sep).Some? ==>
              var (before, after) := Cut(s, sep).value; sep !in before && s == before + [sep] + after
  {
    if s != "" && s[0] != sep {
      CutFacts(s[1..], sep);
      assert s == [s[0]] + s[1..];
    }
  }

  lemma {:induction false} CutFirst(before: string, sep: char, after: string)
    requires sep !in before
    ensures Cut(before + [sep] + after, sep) == Some((before, after))
  {
    var s := before + [sep] + after;
    if before == "" {
      assert s[1..] == after;
    } else {
      assert s[1..] == before[1..] + [sep] + after;
      CutFirst(before[1..], sep, after);
      assert before == [before[0]] + before[1..];
    }
  }

  /** `strings.Split(s, "\n")`. */
  function Lines(s: string): (lines: seq<string>)
    ensures |lines| > 0
  {
    if s == "" then [""]
    else if s[0] == '\n' then [""] + Lines(s[1..])
    else var rest := Lines(s[1..]); [[s[0]] + rest[0]] + rest[1..]
  }

  /** `strings.Join(lines, "\n")`. */
  function Join(lines: seq<string>): string {
    if lines == [] then "" else if |lines| == 1 then lines[0] else lines[0] + "\n" + Join(lines[1..])
  }

  lemma {:induction false} LinesHaveNoNewline(s: string)
    ensures forall i :: 0 <= i < |Lines(s)| ==> '\n' !in Lines(s)[i]
  {
    if s != "" { LinesHaveNoNewline(s[1..]); }
  }

  lemma {:induction false} LinesOfLine(line: string)
    requires '\n' !in line
    ensures Lines(line) == [line]
  {
    if line != "" {
      LinesOfLine(line[1..]);
      assert line == [line[0]] + line[1..];
    }
  }

  lemma {:induction false} LinesCons(line: string, rest: string)
    requires '\n' !in line
    ensures Lines(line + "\n" + rest) == [line] + Lines(rest)
  {
    var s := line + "\n" + rest;
    if line == "" {
      assert s[1..] == rest;
    } else {
      assert s[1..] == line[1..] + "\n" + rest;
      LinesCons(line[1..], rest);
      assert line == [line[0]] + line[1..];
    }
  }

  /** Splitting undoes joining. */
  lemma {:induction false} LinesJoin(lines: seq<string>)
    requires lines != [] && forall i :: 0 <= i < |lines| ==> '\n' !in lines[i]
    ensures Lines(Join(lines)) == lines
  {
    if |lines| == 1 {
      LinesOfLine(lines[0]);
    } else {
      LinesCons(lines[0], Join(lines[1..]));
      LinesJoin(lines[1..]);
    }
  }

  // ---------------------------------------------------------------- parsing

  /** The key and value on a line: cut at the first '=', or else at the first ':'. */
  function Entry(raw: string): Option<(string, string)> {
    var line := TrimSpace(raw);
    var cut := if Cut(line, '=').Some? then Cut(line, '=') else Cut(line, ':');
    match cut
    case None => None
    case Some((key, value)) => Some((TrimSpace(key), TrimSpace(value)))
  }

  /** The pairs on the lines read so far; a later line replaces an earlier one. */
  function Collect(lines: seq<string>): Pairs {
    if lines == [] then map[] else
      var before := Collect(lines[..|lines| - 1]);
      match Entry(lines[|lines| - 1])
      case None => before
      case Some((key, value)) => before[key := value]
  }

  function Parsed(raw: string): Pairs {
    Collect(Lines(raw))
  }

  /** `parseKeyValues`; Go's nil map stands for the empty one. */
  method ParseKeyValues(raw: string) returns (values: Pairs)
    ensures values == Parsed(raw)
  {
    values := map[];
    var lines := Lines(raw);
    for i := 0 to |lines|
      invariant values == Collect(lines[..i])
    {
      assert lines[..i + 1][..i] == lines[..i];
      var line := TrimSpace(lines[i]);
      if line == "" {
        continue;
      }
      var cut := Cut(line, '=');
      if cut.None? {
        cut := Cut(line, ':');
      }
      if cut.Some? {
        values := values[TrimSpace(cut.value.0) := TrimSpace(cut.value.1)];
      }
    }
    assert lines[..|lines|] == lines;
  }

  /** Blanks, tabs and carriage returns. */
  predicate Padding(s: string) {
    forall i :: 0 <= i < |s| ==> s[i] == ' ' || s[i] == '\t' || s[i] == '\r'
  }

  /** Padding around a trimmed text is trimmed away. */
  lemma {:induction false} TrimPadded(before: string, text: string, after: string)
    requires Padding(before) && Padding(after) && Trimmed(text) && text != ""
    ensures TrimSpace(before + text + after) == text
    decreases |before| + |after|
  {
    var s := before + text + after;
    if before != "" {
      assert s[0] == before[0] && s[1..] == before[1..] + text + after;
      TrimPadded(before[1..], text, after);
    } else {
      assert s == text + after && TrimLeft(s) == s;
      TrimRightPadded(text, after);
    }
  }

  lemma {:induction false} TrimRightPadded(text: string, after: string)
    requires Padding(after) && Trimmed(text) && text != ""
    ensures TrimRight(text + after) == text
  {
    var s, n := text + after, |after| - 1;
    if after != "" {
      assert s[|s| - 1] == after[n] && s[..|s| - 1] == text + after[..n];
      TrimRightPadded(text, after[..n]);
    } else {
      assert s == text;
    }
  }

  /** Where a line is cut. */
  lemma CutLine(left: string, sep: char, right: string)
    requires '=' !in left && (sep == '=' || (sep == ':' && ':' !in left && '=' !in right))
    ensures var line := left + [sep] + right;
      (if Cut(line, '=').Some? then Cut(line, '=') else Cut(line, ':')) == Some((left, right))
  {
    CutFirst(left, sep, right);
    if sep == ':' { CutFacts(left + [sep] + right, '='); }
  }

  lemma EntryOfHalves(before: string, left: string, sep: char, right: string, after: string)
    requires Padding(before) && Padding(after) && Trimmed(left + [sep] + right)
    requires '=' !in left && (sep == '=' || (sep == ':' && ':' !in left && '=' !in right))
    ensures Entry(before + (left + [sep] + right) + after) == Some((TrimSpace(left), TrimSpace(right)))
  {
    TrimPadded(before, left + [sep] + right, after);
    CutLine(left, sep, right);
  }

  lemma TrimHalves(key: string, b: string, c: string, value: string)
    requires Padding(b) && Padding(c) && Trimmed(key) && key != "" && Trimmed(value) && value != ""
    ensures TrimSpace(key + b) == key && TrimSpace(c + value) == value
  {
    TrimPadded("", key, b);
    TrimPadded(c, value, "");
    assert "" + key + b == key + b && c + value + "" == c + value;
  }

  /** What a line says: key and value around the first '=', or around the first
      ':' on a line without '=', whatever the padding around them. */
  lemma EntryIs(a: string, key: string, b: string, sep: char, c: string, value: string, d: string)
    requires Padding(a) && Padding(b) && Padding(c) && Padding(d)
    requires Trimmed(key) && key != "" && Trimmed(value) && value != ""
    requires '=' !in key && (sep == '=' || (sep == ':' && ':' !in key && '=' !in value))
    ensures Entry(a + ((key + b) + [sep] + (c + value)) + d) == Some((key, value))
  {
    var line := (key + b) + [sep] + (c + value);
    assert line[0] == key[0] && line[|line| - 1] == value[|value| - 1];
    TrimHalves(key, b, c, value);
    EntryOfHalves(a, key + b, sep, c + value, d);
  }

  // --------------------------------------------------------------- printing

  function PrintedLine(values: Pairs, key: string): string
    requires key in values
  {
    key + "=" + values[key]
  }

  /** One line for each key, in key order. */
  function PrintedLines(values: Pairs, keys: seq<string>): seq<string>
    requires forall k :: k in keys ==> k in values
  {
    seq(|keys|, i requires 0 <= i < |keys| => PrintedLine(values, keys[i]))
  }

  function Printed(values: Pairs): string {
    WalkVisits(values.Keys);
    Join(PrintedLines(values, Walk(values.Keys)))
  }

  /** `keyValues`: sort the keys, print a line for each, join the lines. */
  method KeyValues(values: Pairs) returns (text: string)
    ensures text == Printed(values)
  {
    WalkVisits(values.Keys);
    var keys := Walk(values.Keys);
    if |values| == 0 {
      assert values == map[];
      return "";
    }
    var lines: seq<string> := [];
    for i := 0 to |keys|
      invariant lines == PrintedLines(values, keys)[..i]
    {
      assert keys[i] in keys;
      lines := lines + [keys[i] + "=" + values[keys[i]]];
    }
    assert PrintedLines(values, keys)[..|keys|] == PrintedLines(values, keys);
    text := Join(lines);
  }

  // ------------------------------------------------------------- round trips

  predicate Clean(s: string) {
    Trimmed(s) && '\n' !in s
  }

  /** What the text form can carry. */
  predicate Printable(values: Pairs) {
    forall k :: k in values ==> Clean(k) && '=' !in k && Clean(values[k])
  }

  lemma EntryPrintable(line: string)
    requires '\n' !in line
    ensures Entry(line).Some? ==>
              var (key, value) := Entry(line).value; Clean(key) && '=' !in key && Clean(value)
  {
    var trimmed := TrimSpace(line);
    TrimFacts(line);
    CutFacts(trimmed, '=');
    CutFacts(trimmed, ':');
    var cut := if Cut(trimmed, '=').Some? then Cut(trimmed, '=') else Cut(trimmed, ':');
    if cut.Some? {
      TrimFacts(cut.value.0);
      TrimFacts(cut.value.1);
    }
  }

  lemma {:induction false} CollectPrintable(lines: seq<string>)
    requires forall i :: 0 <= i < |lines| ==> '\n' !in lines[i]
    ensures Printable(Collect(lines))
  {
    if lines != [] {
      CollectPrintable(lines[..|lines| - 1]);
      EntryPrintable(lines[|lines| - 1]);
    }
  }

  /** Whatever is parsed can be printed. */
  lemma ParsedPrintable(raw: string)
    ensures Printable(Parsed(raw))
  {
    LinesHaveNoNewline(raw);
    CollectPrintable(Lines(raw));
  }

  /** A printed line reads back as its key and value. */
  lemma EntryOfPrinted(values: Pairs, key: string)
    requires Printable(values) && key in values
    ensures Entry(PrintedLine(values, key)) == Some((key, values[key]))
    ensures '\n' !in PrintedLine(values, key)
  {
    var line := PrintedLine(values, key);
    assert line == key + ['='] + values[key];
    assert Trimmed(line);
    TrimFacts(line);
    TrimFacts(key);
    TrimFacts(values[key]);
    CutFirst(key, '=', values[key]);
  }

  lemma {:induction false} CollectPrinted(values: Pairs, keys: seq<string>, lines: seq<string>)
    requires Printable(values) && |lines| == |keys|
    requires forall i :: 0 <= i < |keys| ==> keys[i] in values && lines[i] == PrintedLine(values, keys[i])
    ensures forall k :: k in Collect(lines) <==> k in keys
    ensures forall k :: k in Collect(lines) ==> k in values && Collect(lines)[k] == values[k]
  {
    if keys != [] {
      var n := |keys| - 1;
      EntryOfPrinted(values, keys[n]);
      CollectPrinted(values, keys[..n], lines[..n]);
      assert keys == keys[..n] + [keys[n]];
    }
  }

  /** Printing and parsing a map gives it back exactly when it is printable. */
  lemma PrintThenParse(values: Pairs)
    ensures Parsed(Printed(values)) == values <==> Printable(values)
  {
    ParsedPrintable(Printed(values));
    if Printable(values) {
      WalkVisits(values.Keys);
      var keys := Walk(values.Keys);
      if keys == [] {
        assert forall k :: k in values ==> k in keys;
        assert Lines("") == [""] && Collect([""]) == map[] by { NothingOnEmptyLine(); }
      } else {
        var lines := PrintedLines(values, keys);
        forall i | 0 <= i < |lines| ensures keys[i] in values && '\n' !in lines[i] {
          assert keys[i] in keys;
          EntryOfPrinted(values, keys[i]);
        }
        LinesJoin(lines);
        CollectPrinted(values, keys, lines);
      }
    }
  }

  lemma NothingOnEmptyLine()
    ensures Collect([""]) == map[]
  {
    assert Entry("") == None;
    assert [""][..0] == [];
  }

  /** Headers survive any number of trips through the edit form. */
  lemma HeadersSurviveEditing(raw: string)
    ensures Parsed(Printed(Parsed(raw))) == Parsed(raw)
  {
    ParsedPrintable(raw);
    PrintThenParse(Parsed(raw));
  }

  /** A key is present when some line carries it, with the last such line's value. */
  lemma {:induction false} LastLineWins(lines: seq<string>, key: string)
    ensures key in Collect(lines) <==>
              exists i :: 0 <= i < |lines| && Entry(lines[i]).Some? && Entry(lines[i]).value.0 == key
    ensures forall i :: 0 <= i < |lines| && Entry(lines[i]).Some? && Entry(lines[i]).value.0 == key
                        && (forall j :: i < j < |lines| ==> Entry(lines[j]).None? || Entry(lines[j]).value.0 != key)
                        ==> key in Collect(lines) && Collect(lines)[key] == Entry(lines[i]).value.1
  {
    if lines != [] {
      var rest := lines[..|lines| - 1];
      LastLineWins(rest, key);
      assert lines == rest + [lines[|rest|]];
    }
  }
}
