/**
 Lines of the Prometheus text exposition format, version 0.0.4, as
 runtime/observability/expose.go writes them, and a reader that recovers each line.
 */
module Exposition {
  import opened Wrappers
  import opened Replacing
  import opened Separated

  // ----- escaping -----

  /** escapeLabelValue: three replacements, one after the other. */
  function EscapeLabelValue(s: string): string {
    ReplaceAll(ReplaceAll(ReplaceAll(s, "\\", "\\\\"), "\"", "\\\""), "\n", "\\n")
  }

  function EscapeHelp(s: string): string {
    ReplaceAll(ReplaceAll(s, "\\", "\\\\"), "\n", "\\n")
  }

  function EscapedChar(c: char, quotes: bool): string {
    if c == '\\' then "\\\\" else if c == '\n' then "\\n" else if c == '"' && quotes then "\\\"" else [c]
  }

  /** The same in a single pass, character by character. */
  function Escaped(s: string, quotes: bool): string {
    if s == "" then "" else EscapedChar(s[0], quotes) + Escaped(s[1..], quotes)
  }

  lemma ReplaceStep(s: string, c: char, put: string)
    requires s != ""
    ensures ReplaceAll(s, [c], put) == (if s[0] == c then put else [s[0]]) + ReplaceAll(s[1..], [c], put)
  {
  }

  lemma {:induction false} ReplaceJoined(s: string, t: string, c: char, put: string)
    ensures ReplaceAll(s + t, [c], put) == ReplaceAll(s, [c], put) + ReplaceAll(t, [c], put)
  {
    if s == "" {
      assert s + t == t;
    } else {
      hide ReplaceAll;
      assert (s + t)[1..] == s[1..] + t;
      ReplaceJoined(s[1..], t, c, put);
      ReplaceStep(s, c, put);
      ReplaceStep(s + t, c, put);
    }
  }

  lemma ReplaceChar(x: char, c: char, put: string)
    ensures ReplaceAll([x], [c], put) == if x == c then put else [x]
  {
    assert |[x][1..]| == 0;
  }

  lemma ReplaceTwo(x: char, y: char, c: char, put: string)
    ensures ReplaceAll([x, y], [c], put) == ReplaceAll([x], [c], put) + ReplaceAll([y], [c], put)
  {
    ReplaceJoined([x], [y], c, put);
    assert [x] + [y] == [x, y];
  }

  lemma LabelEscapeJoined(s: string, t: string)
    ensures EscapeLabelValue(s + t) == EscapeLabelValue(s) + EscapeLabelValue(t)
  {
    ReplaceJoined(s, t, '\\', "\\\\");
    var s1, t1 := ReplaceAll(s, "\\", "\\\\"), ReplaceAll(t, "\\", "\\\\");
    ReplaceJoined(s1, t1, '"', "\\\"");
    ReplaceJoined(ReplaceAll(s1, "\"", "\\\""), ReplaceAll(t1, "\"", "\\\""), '\n', "\\n");
  }

  lemma HelpEscapeJoined(s: string, t: string)
    ensures EscapeHelp(s + t) == EscapeHelp(s) + EscapeHelp(t)
  {
    ReplaceJoined(s, t, '\\', "\\\\");
    ReplaceJoined(ReplaceAll(s, "\\", "\\\\"), ReplaceAll(t, "\\", "\\\\"), '\n', "\\n");
  }

  lemma OneCharEscaped(x: char)
    ensures EscapeLabelValue([x]) == EscapedChar(x, true) && EscapeHelp([x]) == EscapedChar(x, false)
  {
    ReplaceChar(x, '\\', "\\\\");
    ReplaceChar(x, '"', "\\\"");
    ReplaceChar(x, '\n', "\\n");
    if x == '\\' {
      ReplaceTwo('\\', '\\', '"', "\\\"");
      ReplaceTwo('\\', '\\', '\n', "\\n");
      ReplaceChar('\\', '"', "\\\"");
      ReplaceChar('\\', '\n', "\\n");
    } else if x == '"' {
      ReplaceTwo('\\', '"', '\n', "\\n");
      ReplaceChar('\\', '\n', "\\n");
      ReplaceChar('"', '\n', "\\n");
    }
  }

  /** The sequential replacements never touch what an earlier one wrote: they are one pass. */
  lemma {:induction false} EscapesAreOnePass(s: string)
    ensures EscapeLabelValue(s) == Escaped(s, true) && EscapeHelp(s) == Escaped(s, false)
  {
    if s != "" {
      EscapesAreOnePass(s[1..]);
      assert s == [s[0]] + s[1..];
      LabelEscapeJoined([s[0]], s[1..]);
      HelpEscapeJoined([s[0]], s[1..]);
      OneCharEscaped(s[0]);
    }
  }

  /** What is escaped: a backslash and a line break by a backslash before '\\' or 'n', a quote in label values only. */
  lemma CharactersEscaped(c: char)
    ensures EscapeLabelValue("\\") == EscapeHelp("\\") == "\\\\" && EscapeLabelValue("\n") == EscapeHelp("\n") == "\\n"
    ensures EscapeLabelValue("\"") == "\\\"" && EscapeHelp("\"") == "\""
    ensures c !in "\\\n\"" ==> EscapeLabelValue([c]) == EscapeHelp([c]) == [c]
  {
    OneCharEscaped('\\');
    OneCharEscaped('\n');
    OneCharEscaped('"');
    OneCharEscaped(c);
  }

  lemma {:induction false} EscapedHasNoNewline(s: string, quotes: bool)
    ensures '\n' !in Escaped(s, quotes)
  {
    if s != "" {
      EscapedHasNoNewline(s[1..], quotes);
    }
  }

  // ----- reading back -----

  function Unescaped(c: char): char {
    if c == 'n' then '\n' else c
  }

  /** Undoes an escaped text that runs to the end. */
  function Unescape(t: string): Option<string> {
    if t == "" then Some("")
    else if t[0] == '\\' then
      if |t| == 1 then None
      else match Unescape(t[2..])
        case None => None
        case Some(s) => Some([Unescaped(t[1])] + s)
    else match Unescape(t[1..])
      case None => None
      case Some(s) => Some([t[0]] + s)
  }

  lemma {:induction false} UnescapeEscaped(s: string)
    ensures Unescape(Escaped(s, false)) == Some(s)
  {
    if s != "" {
      UnescapeEscaped(s[1..]);
      var t, rest := Escaped(s, false), Escaped(s[1..], false);
      if s[0] == '\\' || s[0] == '\n' {
        assert t[2..] == rest;
      } else {
        assert t[1..] == rest;
      }
      assert s == [s[0]] + s[1..];
    }
  }

  /** Reads an escaped value up to its closing quote; the rest follows the quote. */
  function ReadQuoted(t: string): Option<(string, string)> {
    if t == "" then None
    else if t[0] == '"' then Some(("", t[1..]))
    else if t[0] == '\\' then
      if |t| == 1 then None
      else match ReadQuoted(t[2..])
        case None => None
        case Some(r) => Some(([Unescaped(t[1])] + r.0, r.1))
    else match ReadQuoted(t[1..])
      case None => None
      case Some(r) => Some(([t[0]] + r.0, r.1))
  }

  lemma ReadQuotedChar(c: char, rest: string)
    requires ReadQuoted(rest).Some?
    ensures ReadQuoted(EscapedChar(c, true) + rest) == Some(([c] + ReadQuoted(rest).value.0, ReadQuoted(rest).value.1))
  {
    var t := EscapedChar(c, true) + rest;
    if c == '\\' || c == '\n' || c == '"' {
      assert t[2..] == rest;
    } else {
      assert t[1..] == rest;
    }
  }

  lemma {:induction false} ReadQuotedEscaped(s: string, after: string)
    ensures ReadQuoted(Escaped(s, true) + "\"" + after) == Some((s, after))
  {
    if s == "" {
      assert Escaped(s, true) + "\"" + after == "\"" + after && ("\"" + after)[1..] == after;
    } else {
      hide ReadQuoted, EscapedChar;
      ReadQuotedEscaped(s[1..], after);
      var rest := Escaped(s[1..], true) + "\"" + after;
      ReadQuotedChar(s[0], rest);
      assert Escaped(s, true) + "\"" + after == EscapedChar(s[0], true) + rest;
      assert s == [s[0]] + s[1..];
    }
  }

  // ----- lines -----

  /** One line: a family's help or type, or one sample with its label pairs. */
  datatype Line =
    | Help(name: string, help: string)
    | Type(name: string, kind: string)
    | Sample(name: string, labels: seq<(string, string)>, value: string)

  predicate LegalName(name: string) {
    name != "" && name[0] != '#' && forall c :: c in name ==> c != '{' && c != ' ' && c != '\n'
  }

  predicate LegalLabel(tag: string) {
    forall c :: c in tag ==> c != '=' && c != '\n'
  }

  predicate LegalLine(line: Line) {
    LegalName(line.name)
    && match line
       case Help(_, _) => true
       case Type(_, kind) => '\n' !in kind
       case Sample(_, labels, value) =>
         '\n' !in value && forall i :: 0 <= i < |labels| ==> LegalLabel(labels[i].0)
  }

  function WriteLabel(tag: (string, string)): string {
    tag.0 + "=\"" + EscapeLabelValue(tag.1) + "\""
  }

  /** The label pairs between the braces, with the closing brace. */
  function WriteLabels(labels: seq<(string, string)>): string
    requires labels != []
  {
    WriteLabel(labels[0]) + (if |labels| == 1 then "}" else "," + WriteLabels(labels[1..]))
  }

  function Write(line: Line): string {
    match line
    case Help(name, help) => "# HELP " + name + " " + EscapeHelp(help)
    case Type(name, kind) => "# TYPE " + name + " " + kind
    case Sample(name, labels, value) =>
      name + (if labels == [] then "" else "{" + WriteLabels(labels)) + " " + value
  }

  /** The characters up to the first brace or space, and what follows from there. */
  function Name(t: string): (string, string) {
    if t == "" || t[0] == '{' || t[0] == ' ' then ("", t)
    else var r := Name(t[1..]); ([t[0]] + r.0, r.1)
  }

  lemma {:induction false} NameWritten(name: string, after: string)
    requires (forall c :: c in name ==> c != '{' && c != ' ') && after != "" && (after[0] == '{' || after[0] == ' ')
    ensures Name(name + after) == (name, after)
  {
    if name == "" {
      assert name + after == after;
    } else {
      assert (name + after)[1..] == name[1..] + after && name == [name[0]] + name[1..];
      assert name[0] in name;
      forall c | c in name[1..] ensures c != '{' && c != ' ' {
        assert c in name;
      }
      NameWritten(name[1..], after);
    }
  }

  /** The characters up to the first equals sign, and what follows it. */
  function LabelName(t: string): Option<(string, string)> {
    if t == "" then None
    else if t[0] == '=' then Some(("", t[1..]))
    else match LabelName(t[1..])
      case None => None
      case Some(r) => Some(([t[0]] + r.0, r.1))
  }

  lemma {:induction false} LabelNameWritten(tag: string, after: string)
    requires '=' !in tag
    ensures LabelName(tag + "=" + after) == Some((tag, after))
  {
    var t := tag + "=" + after;
    if tag == "" {
      assert t == "=" + after && t[1..] == after;
    } else {
      assert t[1..] == tag[1..] + "=" + after && tag == [tag[0]] + tag[1..];
      LabelNameWritten(tag[1..], after);
    }
  }

  /** Reads one pair, and what follows it. */
  function ReadLabel(t: string): Option<((string, string), string)> {
    match LabelName(t)
    case None => None
    case Some((tag, rest)) =>
      if rest == "" || rest[0] != '"' then None
      else match ReadQuoted(rest[1..])
        case None => None
        case Some((value, after)) => Some(((tag, value), after))
  }

  lemma ReadLabelWritten(tag: (string, string), after: string)
    requires '=' !in tag.0
    ensures ReadLabel(WriteLabel(tag) + after) == Some((tag, after))
  {
    EscapesAreOnePass(tag.1);
    var quoted := "\"" + (Escaped(tag.1, true) + "\"" + after);
    assert WriteLabel(tag) + after == tag.0 + "=" + quoted;
    LabelNameWritten(tag.0, quoted);
    assert quoted[1..] == Escaped(tag.1, true) + "\"" + after;
    ReadQuotedEscaped(tag.1, after);
  }

  /** Reads the pairs up to the closing brace, and what follows it. */
  function ReadLabels(t: string): Option<(seq<(string, string)>, string)>
    decreases |t|
  {
    match ReadLabel(t)
    case None => None
    case Some((tag, rest)) =>
      if rest == "" || |rest| >= |t| then None
      else if rest[0] == '}' then Some(([tag], rest[1..]))
      else if rest[0] != ',' then None
      else match ReadLabels(rest[1..])
        case None => None
        case Some((labels, after)) => Some(([tag] + labels, after))
  }

  lemma {:induction false} ReadLabelsWritten(labels: seq<(string, string)>, after: string)
    requires labels != [] && forall i :: 0 <= i < |labels| ==> '=' !in labels[i].0
    ensures ReadLabels(WriteLabels(labels) + after) == Some((labels, after))
    decreases |labels|
  {
    var t := WriteLabels(labels) + after;
    if |labels| == 1 {
      assert t == WriteLabel(labels[0]) + ("}" + after);
      ReadLabelWritten(labels[0], "}" + after);
      assert ("}" + after)[1..] == after && [labels[0]] == labels;
    } else {
      var rest := "," + (WriteLabels(labels[1..]) + after);
      assert t == WriteLabel(labels[0]) + rest;
      ReadLabelWritten(labels[0], rest);
      assert rest[1..] == WriteLabels(labels[1..]) + after;
      ReadLabelsWritten(labels[1..], after);
      assert [labels[0]] + labels[1..] == labels;
    }
  }

  function ReadSample(t: string): Option<Line> {
    var (name, rest) := Name(t);
    if rest == "" then None
    else if rest[0] == ' ' then Some(Sample(name, [], rest[1..]))
    else match ReadLabels(rest[1..])
      case None => None
      case Some((labels, after)) =>
        if after == "" || after[0] != ' ' then None else Some(Sample(name, labels, after[1..]))
  }

  function Read(t: string): Option<Line> {
    if t == "" then None
    else if t[0] != '#' then ReadSample(t)
    else if StartsWith(t, "# HELP ") then
      var (name, rest) := Name(t[7..]);
      if rest == "" then None
      else match Unescape(rest[1..])
        case None => None
        case Some(help) => Some(Help(name, help))
    else if StartsWith(t, "# TYPE ") then
      var (name, rest) := Name(t[7..]);
      if rest == "" then None else Some(Type(name, rest[1..]))
    else None
  }

  lemma ReadSampleWritten(line: Line)
    requires LegalLine(line) && line.Sample?
    ensures Read(Write(line)) == Some(line)
  {
    var t := Write(line);
    assert t[0] == line.name[0];
    if line.labels == [] {
      assert t == line.name + (" " + line.value);
      NameWritten(line.name, " " + line.value);
      assert (" " + line.value)[1..] == line.value;
    } else {
      var after := " " + line.value;
      var rest := "{" + (WriteLabels(line.labels) + after);
      assert t == line.name + rest;
      NameWritten(line.name, rest);
      assert rest[1..] == WriteLabels(line.labels) + after;
      ReadLabelsWritten(line.labels, after);
      assert after[1..] == line.value;
    }
  }

  /** Every legal line reads back as itself. */
  lemma ReadWritten(line: Line)
    requires LegalLine(line)
    ensures Read(Write(line)) == Some(line)
  {
    var t := Write(line);
    match line
    case Sample(_, _, _) => ReadSampleWritten(line);
    case Help(name, help) =>
      EscapesAreOnePass(help);
      var rest := " " + Escaped(help, false);
      assert t[..7] == "# HELP " && t[7..] == name + rest;
      NameWritten(name, rest);
      assert rest[1..] == Escaped(help, false);
      UnescapeEscaped(help);
    case Type(name, kind) =>
      var rest := " " + kind;
      assert t[..7] == "# TYPE " && t[7..] == name + rest;
      NameWritten(name, rest);
      assert rest[1..] == kind;
  }

  lemma {:induction false} LabelsHaveNoNewline(labels: seq<(string, string)>)
    requires labels != [] && forall i :: 0 <= i < |labels| ==> LegalLabel(labels[i].0)
    ensures '\n' !in WriteLabels(labels)
  {
    EscapesAreOnePass(labels[0].1);
    EscapedHasNoNewline(labels[0].1, true);
    if |labels| > 1 {
      LabelsHaveNoNewline(labels[1..]);
    }
  }

  lemma LineHasNoNewline(line: Line)
    requires LegalLine(line)
    ensures '\n' !in Write(line)
  {
    match line
    case Help(_, help) =>
      EscapesAreOnePass(help);
      EscapedHasNoNewline(help, false);
    case Type(_, _) =>
    case Sample(_, labels, _) =>
      if labels != [] {
        LabelsHaveNoNewline(labels);
      }
  }

  // ----- documents -----

  function Text(lines: seq<Line>): string {
    if lines == [] then "" else Write(lines[0]) + "\n" + Text(lines[1..])
  }

  lemma TextStep(lines: seq<Line>)
    ensures Text(lines) == if lines == [] then "" else Write(lines[0]) + "\n" + Text(lines[1..])
  {
  }

  lemma {:induction false} TextJoined(a: seq<Line>, b: seq<Line>)
    ensures Text(a + b) == Text(a) + Text(b)
  {
    hide Text, Write;
    TextStep(a);
    if a == [] {
      assert a + b == b;
    } else {
      TextJoined(a[1..], b);
      assert (a + b)[1..] == a[1..] + b && (a + b)[0] == a[0];
      TextStep(a + b);
      var first := Write(a[0]) + "\n";
      assert first + (Text(a[1..]) + Text(b)) == (first + Text(a[1..])) + Text(b);
    }
  }

  /** The text splits at its newlines into exactly the lines written. */
  lemma {:induction false} TextSplits(lines: seq<Line>)
    requires forall i :: 0 <= i < |lines| ==> LegalLine(lines[i])
    ensures |Split('\n', Text(lines))| == |lines| + 1
    ensures forall i :: 0 <= i < |lines| ==> Split('\n', Text(lines))[i] == Write(lines[i])
  {
    if lines != [] {
      TextSplits(lines[1..]);
      LineHasNoNewline(lines[0]);
      SplitFree('\n', Write(lines[0]));
      assert Write(lines[0]) + "\n" + Text(lines[1..]) == Write(lines[0]) + ['\n'] + Text(lines[1..]);
      SplitAppend('\n', Write(lines[0]), Text(lines[1..]));
    }
  }

  /** The text of a document determines its lines. */
  lemma TextDeterminesLines(a: seq<Line>, b: seq<Line>)
    requires (forall i :: 0 <= i < |a| ==> LegalLine(a[i])) && (forall i :: 0 <= i < |b| ==> LegalLine(b[i]))
    requires Text(a) == Text(b)
    ensures a == b
  {
    TextSplits(a);
    TextSplits(b);
    forall i | 0 <= i < |a| ensures a[i] == b[i] {
      ReadWritten(a[i]);
      ReadWritten(b[i]);
      assert Write(a[i]) == Split('\n', Text(a))[i] == Write(b[i]);
    }
  }

  lemma Regrouped(name: string, first: string, second: string, text: string)
    ensures name + ("{" + (first + "}")) + " " + text + "\n" == name + "{" + first + ("} " + text + "\n")
    ensures name + ("{" + (first + ("," + (second + "}")))) + " " + text + "\n"
            == name + "{" + first + "," + second + ("} " + text + "\n")
  {
  }

  lemma LabelsSpelled(a: (string, string), b: (string, string))
    ensures WriteLabels([a]) == a.0 + "=\"" + EscapeLabelValue(a.1) + "\"" + "}"
    ensures WriteLabels([a, b])
            == a.0 + "=\"" + EscapeLabelValue(a.1) + "\"" + ("," + (b.0 + "=\"" + EscapeLabelValue(b.1) + "\"" + "}"))
  {
    hide EscapeLabelValue;
    assert [a, b][1..] == [b];
  }

  lemma OneText(line: Line)
    ensures Text([line]) == Write(line) + "\n"
  {
    hide Write;
    assert [line][1..] == [];
  }

  /** The lines as they stand in the document. */
  lemma LinesSpelled(name: string, text: string, a: (string, string), b: (string, string))
    ensures Text([Help(name, text)]) == "# HELP " + name + " " + EscapeHelp(text) + "\n"
    ensures Text([Type(name, text)]) == "# TYPE " + name + " " + text + "\n"
    ensures Text([Sample(name, [], text)]) == name + " " + text + "\n"
    ensures Text([Sample(name, [a], text)]) == name + "{" + a.0 + "=\"" + EscapeLabelValue(a.1) + "\"} " + text + "\n"
    ensures Text([Sample(name, [a, b], text)])
            == name + "{" + a.0 + "=\"" + EscapeLabelValue(a.1) + "\"," + b.0 + "=\"" + EscapeLabelValue(b.1) + "\"} "
               + text + "\n"
  {
    hide EscapeHelp, EscapeLabelValue, Text, WriteLabels, WriteLabel;
    OneText(Help(name, text));
    OneText(Type(name, text));
    OneText(Sample(name, [], text));
    OneText(Sample(name, [a], text));
    OneText(Sample(name, [a, b], text));
    LabelsSpelled(a, b);
    var first := a.0 + "=\"" + EscapeLabelValue(a.1) + "\"";
    var second := b.0 + "=\"" + EscapeLabelValue(b.1) + "\"";
    Regrouped(name, first, second, text);
  }
}
