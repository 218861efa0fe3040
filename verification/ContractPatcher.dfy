/** The line-level edit of metadata.transport_type in `scripts/audit/apply_contract_config.py`. */
module ContractPatcher {
  import opened Options
  import opened PythonText

  // ---------- Lines ----------

  predicate Ended(s: string) { s != "" && IsBreak(s[|s| - 1]) }

  /** `text.splitlines(keepends=True)`. */
  function SplitLines(s: string): seq<string> {
    if s == "" then []
    else if IsBreak(s[0]) then [[s[0]]] + SplitLines(s[1..])
    else
      var rest := SplitLines(s[1..]);
      if rest == [] then [[s[0]]] else [[s[0]] + rest[0]] + rest[1..]
  }

  function Join(lines: seq<string>): string {
    if lines == [] then "" else lines[0] + Join(lines[1..])
  }

  /** The text after the first colon. */
  function AfterColon(s: string): string {
    if s == "" then "" else if s[0] == ':' then s[1..] else AfterColon(s[1..])
  }

  // ---------- The parts of a contract text ----------

  const METADATA := "metadata:"
  const KEY := "transport_type"

  /** The position of the first line with this property, or the number of lines. */
  function First(lines: seq<string>, wanted: string -> bool): (n: nat)
    ensures n <= |lines|
  {
    if lines == [] then 0 else if wanted(lines[0]) then 0 else 1 + First(lines[1..], wanted)
  }

  predicate StartsMetadata(line: string) { METADATA <= line }

  function FindMetadata(lines: seq<string>): nat { First(lines, StartsMetadata) }

  /** A line that is not blank and not indented ends the block. */
  predicate EndsBlock(line: string) {
    Lstrip(line) != "" && line[0] != ' ' && line[0] != '\t'
  }

  /** The regular expression `^\s+transport_type\s*:`. */
  predicate IsTransportLine(line: string) {
    var key := Lstrip(line);
    && |key| < |line|
    && KEY <= key
    && var colon := Lstrip(key[|KEY|..]); colon != "" && colon[0] == ':'
  }

  function Value(line: string): string { Strip(AfterColon(line)) }

  function Indent(line: string): string {
    LstripSplits(line);
    line[..|line| - |Lstrip(line)|]
  }

  /** The block's body: the lines after the metadata line, up to the line that ends the block. */
  function Body(lines: seq<string>): seq<string>
    requires FindMetadata(lines) < |lines|
  {
    var rest := lines[FindMetadata(lines) + 1..];
    rest[..First(rest, EndsBlock)]
  }

  function ReadLines(lines: seq<string>): Option<string> {
    if FindMetadata(lines) == |lines| then None
    else
      var body := Body(lines);
      var k := First(body, IsTransportLine);
      if k == |body| then None else Some(Value(body[k]))
  }

  /** The transport a contract declares: the first transport_type line of the metadata block. */
  function ReadBack(text: string): Option<string> {
    ReadLines(SplitLines(text))
  }

  // ---------- The edit ----------

  function NewLine(indent: string, transport: string): string {
    indent + KEY + ": " + transport + "\n"
  }

  /** What is put between the old text and an appended block. */
  function Separator(text: string): string {
    var lines := SplitLines(text);
    (if text != "" && text[|text| - 1] != '\n' then "\n" else "")
    + if lines != [] && Strip(lines[|lines| - 1]) != "" then "\n" else ""
  }

  function Patched(text: string, transport: string): string {
    var lines := SplitLines(text);
    var m := FindMetadata(lines);
    if m == |lines| then text + Separator(text) + ("metadata:\n" + NewLine("  ", transport))
    else
      var body := Body(lines);
      var k := First(body, IsTransportLine);
      if k == |body| then Join(lines[..m + 1] + [NewLine("  ", transport)] + lines[m + 1..])
      else if Value(body[k]) == transport then text
      else Join(lines[m + 1 + k := NewLine(Indent(body[k]), transport)])
  }

  /** The transports the audit writes: one word. */
  predicate OneWord(transport: string) {
    transport != "" && forall i | 0 <= i < |transport| :: !IsSpace(transport[i])
  }

  // ---------- Lines and texts ----------

  /** A line as splitlines gives it: at most one break, at its end. */
  predicate IsLine(line: string) {
    line != "" && forall i | 0 <= i < |line| - 1 :: !IsBreak(line[i])
  }

  predicate ProperLines(lines: seq<string>) {
    && (forall i | 0 <= i < |lines| :: IsLine(lines[i]))
    && (forall i | 0 <= i < |lines| - 1 :: Ended(lines[i]))
  }

  lemma {:induction false} JoinSplit(s: string)
    ensures Join(SplitLines(s)) == s
  {
    if s != "" {
      JoinSplit(s[1..]);
      assert s == [s[0]] + s[1..];
      var rest := SplitLines(s[1..]);
      if !IsBreak(s[0]) && rest != [] {
        assert [s[0]] + (rest[0] + Join(rest[1..])) == ([s[0]] + rest[0]) + Join(rest[1..]);
      }
    }
  }

  lemma {:induction false} SplitIsProper(s: string)
    ensures ProperLines(SplitLines(s)) && (SplitLines(s) == [] <==> s == "")
    ensures s != "" ==> Ended(SplitLines(s)[|SplitLines(s)| - 1]) == Ended(s)
  {
    hide IsBreak;
    if s != "" {
      SplitIsProper(s[1..]);
      var rest := SplitLines(s[1..]);
      if IsBreak(s[0]) {
        PrependLine([s[0]], rest);
      } else if rest != [] {
        PrependLine([s[0]] + rest[0], rest[1..]);
      }
    }
  }

  lemma PrependLine(line: string, rest: seq<string>)
    requires IsLine(line) && ProperLines(rest) && (rest != [] ==> Ended(line))
    ensures ProperLines([line] + rest)
  {
    hide IsLine, Ended;
    var all := [line] + rest;
    assert forall i | 1 <= i < |all| :: all[i] == rest[i - 1];
  }

  lemma SplitStep(c: char, s: string)
    ensures SplitLines([c] + s)
         == if IsBreak(c) || SplitLines(s) == [] then [[c]] + SplitLines(s)
            else [[c] + SplitLines(s)[0]] + SplitLines(s)[1..]
  {
    assert ([c] + s)[1..] == s;
  }

  lemma {:induction false} SplitFirstLine(line: string, s: string)
    requires IsLine(line) && (Ended(line) || s == "")
    ensures SplitLines(line + s) == [line] + SplitLines(s)
  {
    hide IsBreak;
    SplitStep(line[0], line[1..] + s);
    assert line == [line[0]] + line[1..];
    assert line + s == [line[0]] + (line[1..] + s);
    if |line| > 1 {
      SplitFirstLine(line[1..], s);
      var rest := SplitLines(line[1..] + s);
      assert rest[0] == line[1..] && rest[1..] == SplitLines(s);
    } else {
      assert line[1..] + s == s;
    }
  }

  lemma {:induction false} SplitJoin(lines: seq<string>)
    requires ProperLines(lines)
    ensures SplitLines(Join(lines)) == lines
  {
    if lines != [] {
      SplitJoin(lines[1..]);
      SplitFirstLine(lines[0], Join(lines[1..]));
      assert lines == [lines[0]] + lines[1..];
    }
  }

  lemma {:induction false} JoinConcat(a: seq<string>, b: seq<string>)
    ensures Join(a + b) == Join(a) + Join(b)
  {
    if a == [] {
      assert a + b == b;
    } else {
      JoinConcat(a[1..], b);
      assert (a + b)[1..] == a[1..] + b;
      Associative(a[0], Join(a[1..]), Join(b));
    }
  }

  /** Text that ends with a break can be split apart from what follows it. */
  lemma SplitConcat(u: string, v: string)
    requires u == "" || Ended(u)
    ensures SplitLines(u + v) == SplitLines(u) + SplitLines(v)
  {
    var a, b := SplitLines(u), SplitLines(v);
    SplitIsProper(u);
    SplitIsProper(v);
    JoinSplit(u);
    JoinSplit(v);
    JoinConcat(a, b);
    assert ProperLines(a + b);
    SplitJoin(a + b);
  }

  lemma {:induction false} FirstFound(lines: seq<string>, wanted: string -> bool)
    ensures var n := First(lines, wanted);
            (forall i | 0 <= i < n :: !wanted(lines[i])) && (n < |lines| ==> wanted(lines[n]))
  {
    if lines != [] && !wanted(lines[0]) {
      FirstFound(lines[1..], wanted);
      var n := First(lines[1..], wanted);
      assert forall i | 1 <= i < n + 1 :: lines[i] == lines[1..][i - 1];
    }
  }

  lemma {:induction false} FirstIs(lines: seq<string>, wanted: string -> bool, n: nat)
    requires n <= |lines| && (forall i | 0 <= i < n :: !wanted(lines[i])) && (n < |lines| ==> wanted(lines[n]))
    ensures First(lines, wanted) == n
  {
    if n > 0 {
      assert forall i | 0 <= i < n - 1 :: lines[1..][i] == lines[i + 1];
      FirstIs(lines[1..], wanted, n - 1);
    }
  }

  // ---------- The new line ----------

  lemma {:induction false} AfterColonPrefix(p: string, s: string)
    requires forall i | 0 <= i < |p| :: p[i] != ':'
    ensures AfterColon(p + ":" + s) == s
  {
    if p == "" {
      assert p + ":" + s == ":" + s && (":" + s)[1..] == s;
    } else {
      assert (p + ":" + s)[0] == p[0] && (p + ":" + s)[1..] == p[1..] + ":" + s;
      AfterColonPrefix(p[1..], s);
    }
  }

  lemma StripWord(t: string)
    requires OneWord(t)
    ensures Strip(" " + t + "\n") == t
  {
    var s := " " + t + "\n";
    assert s == " " + (t + "\n");
    LstripIndent(" ", t + "\n");
    var u := t + "\n";
    assert u[..|u| - 1] == t;
    assert Rstrip(t) == t;
    assert Rstrip(u) == Rstrip(t);
  }

  /** An indentation made of white space without a break. */
  predicate IsIndent(indent: string) {
    && indent != "" && (indent[0] == ' ' || indent[0] == '\t')
    && forall i | 0 <= i < |indent| :: IsSpace(indent[i]) && !IsBreak(indent[i])
  }

  lemma NewLineReads(indent: string, t: string)
    requires IsIndent(indent) && OneWord(t)
    ensures IsTransportLine(NewLine(indent, t)) && Value(NewLine(indent, t)) == t
    ensures !EndsBlock(NewLine(indent, t))
    ensures IsLine(NewLine(indent, t)) && Ended(NewLine(indent, t))
  {
    var line := NewLine(indent, t);
    var key := KEY + (": " + t + "\n");
    assert line == indent + key;
    LstripIndent(indent, key);
    assert key[|KEY|..] == ": " + t + "\n";
    assert Lstrip(key[|KEY|..]) == key[|KEY|..];
    assert line == (indent + KEY) + ":" + (" " + t + "\n");
    assert forall i | 0 <= i < |KEY| :: KEY[i] != ':' && !IsBreak(KEY[i]);
    AfterColonPrefix(indent + KEY, " " + t + "\n");
    StripWord(t);
  }

  /** The line written when there is none to replace. */
  lemma DefaultLineReads(t: string)
    requires OneWord(t)
    ensures IsTransportLine(NewLine("  ", t)) && Value(NewLine("  ", t)) == t
    ensures !EndsBlock(NewLine("  ", t))
    ensures IsLine(NewLine("  ", t)) && Ended(NewLine("  ", t))
  {
    assert IsIndent("  ");
    NewLineReads("  ", t);
  }

  lemma MetadataLine()
    ensures IsLine("metadata:\n") && Ended("metadata:\n") && StartsMetadata("metadata:\n")
    ensures IsLine("metadata:") && !Ended("metadata:") && StartsMetadata("metadata:")
  {
    assert "metadata:\n"[9] == '\n' && "metadata:"[8] == ':';
  }

  /** The indentation of a transport line inside the block can be reused. */
  lemma BodyLineIndent(line: string)
    requires IsLine(line) && IsTransportLine(line) && !EndsBlock(line)
    ensures IsIndent(Indent(line))
  {
    LstripSplits(line);
  }

  // ---------- Reading back what was written ----------

  /** The metadata line is the last line and has no line ending: the one case the edit mishandles. */
  predicate UnterminatedMetadata(text: string) {
    var lines := SplitLines(text);
    FindMetadata(lines) < |lines| && FindMetadata(lines) == |lines| - 1 && !Ended(text)
  }

  /** A block whose body starts with a transport line reads as that line's value. */
  lemma ReadsFirstBodyLine(lines: seq<string>, m: nat, line: string)
    requires m + 1 < |lines| && StartsMetadata(lines[m]) && forall i | 0 <= i < m :: !StartsMetadata(lines[i])
    requires lines[m + 1] == line && IsTransportLine(line) && !EndsBlock(line)
    ensures ReadLines(lines) == Some(Value(line))
  {
    FirstIs(lines, StartsMetadata, m);
    var rest := lines[m + 1..];
    assert rest[0] == line;
    FirstIs(Body(lines), IsTransportLine, 0);
  }

  /** The metadata line is not the unterminated last one, so it ends in a break. */
  lemma MetadataLineEnds(text: string)
    requires !UnterminatedMetadata(text) && FindMetadata(SplitLines(text)) < |SplitLines(text)|
    ensures Ended(SplitLines(text)[FindMetadata(SplitLines(text))])
  {
    hide IsBreak, IsLine, Ended, SplitLines, First;
    SplitIsProper(text);
  }

  lemma InsertedIsRead(lines: seq<string>, line: string)
    requires FindMetadata(lines) < |lines| && IsTransportLine(line) && !EndsBlock(line)
    ensures var start := FindMetadata(lines) + 1;
            ReadLines(lines[..start] + [line] + lines[start..]) == Some(Value(line))
  {
    hide IsTransportLine, EndsBlock, StartsMetadata, Value, First, ReadLines;
    var m := FindMetadata(lines);
    var after := lines[..m + 1] + [line] + lines[m + 1..];
    FirstFound(lines, StartsMetadata);
    assert forall i | 0 <= i <= m :: after[i] == lines[i];
    ReadsFirstBodyLine(after, m, line);
  }

  lemma InsertReads(text: string, t: string)
    requires OneWord(t) && !UnterminatedMetadata(text)
    requires var lines := SplitLines(text);
             FindMetadata(lines) < |lines| && First(Body(lines), IsTransportLine) == |Body(lines)|
    ensures ReadBack(Patched(text, t)) == Some(t) && |Patched(text, t)| > |text|
  {
    hide IsBreak, IsSpace, NewLine, IsTransportLine, EndsBlock, StartsMetadata, IsLine, Ended, Value, SplitLines,
         Lstrip, Join, First, ProperLines, ReadLines;
    var lines, line := SplitLines(text), NewLine("  ", t);
    var m := FindMetadata(lines);
    SplitIsProper(text);
    DefaultLineReads(t);
    MetadataLineEnds(text);
    InsertIsProper(lines, m, line);
    SplitJoin(lines[..m + 1] + [line] + lines[m + 1..]);
    InsertedIsRead(lines, line);
    InsertFrame(lines, m + 1, line);
    JoinSplit(text);
  }

  lemma JoinOne(line: string)
    ensures Join([line]) == line
  {
    assert [line][1..] == [];
  }

  lemma InsertIsProper(lines: seq<string>, m: nat, line: string)
    requires ProperLines(lines) && m < |lines| && Ended(lines[m]) && IsLine(line) && Ended(line)
    ensures ProperLines(lines[..m + 1] + [line] + lines[m + 1..])
  {
    hide IsLine, Ended;
    var after := lines[..m + 1] + [line] + lines[m + 1..];
    forall i | 0 <= i < |after| ensures IsLine(after[i]) && (i < |after| - 1 ==> Ended(after[i])) {
      if i <= m { assert after[i] == lines[i]; }
      else if i > m + 1 { assert after[i] == lines[i - 1]; }
    }
  }

  /** The mishandled case: the new entry lands on the metadata line itself. */
  lemma InsertMisses(text: string, t: string)
    requires OneWord(t) && UnterminatedMetadata(text)
    ensures ReadBack(Patched(text, t)) == None && !UnterminatedMetadata(Patched(text, t))
  {
    hide IsBreak, IsSpace, NewLine, IsTransportLine, EndsBlock, IsLine, Value, SplitLines, Lstrip;
    var lines, line := SplitLines(text), NewLine("  ", t);
    var m := FindMetadata(lines);
    FirstFound(lines, StartsMetadata);
    SplitIsProper(text);
    DefaultLineReads(t);
    assert lines[m + 1..] == [] && lines == lines[..m] + [lines[m]];
    assert Body(lines) == [];
    var merged := lines[..m] + [lines[m] + line];
    MergedText(lines, m, line);
    assert Patched(text, t) == Join(merged);
    MergedIsProper(lines, m, line);
    SplitJoin(merged);
    assert forall i | 0 <= i < m :: merged[i] == lines[i];
    MergedStartsMetadata(lines[m], line);
    FirstIs(merged, StartsMetadata, m);
    assert merged[m + 1..] == [];
    SplitIsProper(Patched(text, t));
  }

  lemma MergedText(lines: seq<string>, m: nat, line: string)
    requires m == |lines| - 1
    ensures Join(lines[..m + 1] + [line] + lines[m + 1..]) == Join(lines[..m] + [lines[m] + line])
  {
    hide Join;
    assert lines[..m + 1] + [line] + lines[m + 1..] == lines[..m] + [lines[m], line];
    JoinConcat(lines[..m], [lines[m], line]);
    JoinConcat(lines[..m], [lines[m] + line]);
    JoinTwo(lines[m], line);
    JoinOne(lines[m] + line);
  }

  lemma MergedStartsMetadata(line: string, more: string)
    requires StartsMetadata(line)
    ensures StartsMetadata(line + more)
  {
  }

  lemma JoinTwo(a: string, b: string)
    ensures Join([a, b]) == a + b
  {
    assert [a, b][1..] == [b];
    JoinOne(b);
  }

  lemma MergedIsProper(lines: seq<string>, m: nat, line: string)
    requires ProperLines(lines) && m == |lines| - 1 && !Ended(lines[m]) && IsLine(line) && Ended(line)
    ensures ProperLines(lines[..m] + [lines[m] + line]) && Ended(lines[m] + line)
  {
    hide IsBreak;
    var merged := lines[..m] + [lines[m] + line];
    assert forall i | 0 <= i < m :: merged[i] == lines[i];
  }

  /** Exchanging the transport line that is read for another one changes what is read, and nothing else. */
  lemma ReplaceReadsLines(lines: seq<string>, line: string)
    requires FindMetadata(lines) < |lines| && First(Body(lines), IsTransportLine) < |Body(lines)|
    requires IsTransportLine(line) && !EndsBlock(line) && !StartsMetadata(line)
    ensures var i := FindMetadata(lines) + 1 + First(Body(lines), IsTransportLine);
            i < |lines| && lines[i] == Body(lines)[First(Body(lines), IsTransportLine)]
            && IsTransportLine(lines[i]) && !EndsBlock(lines[i])
            && ReadLines(lines[i := line]) == Some(Value(line))
  {
    hide IsTransportLine, EndsBlock, StartsMetadata, Value, First;
    var m, body := FindMetadata(lines), Body(lines);
    var k := First(body, IsTransportLine);
    var rest := lines[m + 1..];
    FirstFound(lines, StartsMetadata);
    FirstFound(rest, EndsBlock);
    FirstFound(body, IsTransportLine);
    assert body[k] == rest[k] == lines[m + 1 + k];
    var after := lines[m + 1 + k := line];
    FirstIs(after, StartsMetadata, m);
    var rest' := after[m + 1..];
    assert rest' == rest[k := line];
    FirstIs(rest', EndsBlock, First(rest, EndsBlock));
    assert Body(after) == body[k := line];
    FirstIs(body[k := line], IsTransportLine, k);
  }

  /** The line that replaces a transport line of the block. */
  lemma NewLineFits(text: string, old': string, t: string)
    requires OneWord(t) && old' in SplitLines(text) && IsTransportLine(old') && !EndsBlock(old')
    ensures var line := NewLine(Indent(old'), t);
            && IsTransportLine(line) && !EndsBlock(line) && !StartsMetadata(line) && Value(line) == t
            && IsLine(line) && Ended(line)
  {
    hide IsTransportLine, EndsBlock, StartsMetadata, Value, NewLine, Indent, IsLine, Ended, OneWord, SplitLines,
         IsIndent;
    SplitIsProper(text);
    BodyLineIndent(old');
    NewLineReads(Indent(old'), t);
    IndentedIsNoMetadata(Indent(old'), t);
  }

  lemma ReplaceReads(text: string, t: string)
    requires OneWord(t)
    requires var lines := SplitLines(text);
             && FindMetadata(lines) < |lines| && First(Body(lines), IsTransportLine) < |Body(lines)|
             && Value(Body(lines)[First(Body(lines), IsTransportLine)]) != t
    ensures ReadBack(Patched(text, t)) == Some(t)
  {
    hide IsBreak, IsSpace, NewLine, IsTransportLine, EndsBlock, StartsMetadata, IsLine, Ended, Value, SplitLines,
         Lstrip, Indent, OneWord, IsIndent, ReadLines, First, Join, ProperLines;
    var lines := SplitLines(text);
    var k := First(Body(lines), IsTransportLine);
    var line := NewLine(Indent(Body(lines)[k]), t);
    SplitIsProper(text);
    EntryLine(lines, k);
    NewLineFits(text, Body(lines)[k], t);
    ReplaceReadsLines(lines, line);
    ReplaceIsProper(lines, FindMetadata(lines) + 1 + k, line);
    SplitJoin(lines[FindMetadata(lines) + 1 + k := line]);
  }

  lemma IndentedIsNoMetadata(indent: string, t: string)
    requires IsIndent(indent)
    ensures !StartsMetadata(NewLine(indent, t))
  {
    assert NewLine(indent, t)[0] == indent[0] && METADATA[0] == 'm';
  }

  lemma ReplaceIsProper(lines: seq<string>, i: nat, line: string)
    requires ProperLines(lines) && i < |lines| && IsLine(line) && Ended(line)
    ensures ProperLines(lines[i := line])
  {
    hide IsLine, Ended;
  }

  lemma SeparatorEnds(text: string)
    requires var lines := SplitLines(text); FindMetadata(lines) == |lines|
    ensures var u := text + Separator(text);
            && (u == "" || Ended(u))
            && forall i | 0 <= i < |SplitLines(u)| :: !StartsMetadata(SplitLines(u)[i])
  {
    var lines := SplitLines(text);
    FirstFound(lines, StartsMetadata);
    SplitIsProper(text);
    var repair := if text != "" && text[|text| - 1] != '\n' then "\n" else "";
    var repaired := text + repair;
    if repair == "" {
      assert repaired == text;
    } else {
      NewlineAddsNoMetadata(text);
    }
    var gap := if lines != [] && Strip(lines[|lines| - 1]) != "" then "\n" else "";
    assert text + Separator(text) == repaired + gap;
    if gap == "" {
      assert repaired + gap == repaired;
    } else {
      NewlineAddsNoMetadata(repaired);
    }
  }

  lemma NewlineNotInMetadata(line: string)
    ensures StartsMetadata(line + "\n") ==> StartsMetadata(line)
  {
    if StartsMetadata(line + "\n") {
      assert METADATA[8] == ':' && (line + "\n")[8] == ':';
      assert METADATA == line[..9];
    }
  }

  lemma NewlineAlone(text: string)
    requires text == "" || Ended(text)
    ensures SplitLines(text + "\n") == SplitLines(text) + ["\n"]
  {
    assert IsLine("\n") && Ended("\n") && SplitLines("") == [];
    hide SplitLines, IsLine, Ended;
    SplitConcat(text, "\n");
    SplitFirstLine("\n", "");
    assert "\n" + "" == "\n";
  }

  lemma JoinSnoc(front: seq<string>, last: string)
    ensures Join(front + [last]) == Join(front) + last
  {
    hide Join;
    JoinConcat(front, [last]);
    JoinOne(last);
  }

  lemma JoinLastExtended(lines: seq<string>, more: string)
    requires lines != []
    ensures Join(lines[..|lines| - 1] + [lines[|lines| - 1] + more]) == Join(lines) + more
  {
    hide Join;
    var front, last := lines[..|lines| - 1], lines[|lines| - 1];
    assert lines == front + [last];
    JoinSnoc(front, last);
    JoinSnoc(front, last + more);
    Associative(Join(front), last, more);
  }

  lemma Associative(a: string, b: string, c: string)
    ensures (a + b) + c == a + (b + c)
  {
  }

  lemma NewlineIsLine()
    ensures IsLine("\n") && Ended("\n")
  {
  }

  lemma NewlineMerges(text: string)
    requires text != "" && !Ended(text)
    ensures var (lines, n) := (SplitLines(text), |SplitLines(text)| - 1);
            n >= 0 && SplitLines(text + "\n") == lines[..n] + [lines[n] + "\n"]
  {
    hide SplitLines, IsLine, Ended, Join, ProperLines;
    NewlineIsLine();
    var lines := SplitLines(text);
    SplitIsProper(text);
    var merged := lines[..|lines| - 1] + [lines[|lines| - 1] + "\n"];
    MergedIsProper(lines, |lines| - 1, "\n");
    SplitJoin(merged);
    assert Join(merged) == text + "\n" by {
      JoinLastExtended(lines, "\n");
      JoinSplit(text);
    }
  }

  lemma NewlineAddsNoMetadata(text: string)
    requires forall i | 0 <= i < |SplitLines(text)| :: !StartsMetadata(SplitLines(text)[i])
    ensures forall i | 0 <= i < |SplitLines(text + "\n")| :: !StartsMetadata(SplitLines(text + "\n")[i])
  {
    assert !StartsMetadata("\n");
    hide SplitLines, StartsMetadata, Ended;
    if text == "" || Ended(text) {
      NewlineAlone(text);
    } else {
      NewlineMerges(text);
      NewlineNotInMetadata(SplitLines(text)[|SplitLines(text)| - 1]);
    }
  }

  lemma AppendReads(text: string, t: string)
    requires OneWord(t)
    requires var lines := SplitLines(text); FindMetadata(lines) == |lines|
    ensures ReadBack(Patched(text, t)) == Some(t) && |Patched(text, t)| > |text|
  {
    hide IsBreak, IsSpace, NewLine, IsTransportLine, EndsBlock, StartsMetadata, IsLine, Ended, Value, Lstrip;
    var u, line := text + Separator(text), NewLine("  ", t);
    SeparatorEnds(text);
    DefaultLineReads(t);
    var block := "metadata:\n" + line;
    SplitConcat(u, block);
    MetadataLine();
    SplitFirstLine("metadata:\n", line);
    SplitFirstLine(line, "");
    assert line + "" == line;
    var lines := SplitLines(u) + ["metadata:\n", line];
    assert SplitLines(u + block) == lines;
    ReadsFirstBodyLine(lines, |SplitLines(u)|, line);
  }

  /** The patched text declares the requested transport, except exactly when the metadata line ends the
      text without a line ending and there is thus nothing below it. */
  lemma PatchReadsBack(text: string, t: string)
    requires OneWord(t)
    ensures ReadBack(Patched(text, t)) == Some(t) <==> !UnterminatedMetadata(text)
  {
    var lines := SplitLines(text);
    if FindMetadata(lines) == |lines| {
      AppendReads(text, t);
    } else if UnterminatedMetadata(text) {
      InsertMisses(text, t);
    } else {
      var body := Body(lines);
      var k := First(body, IsTransportLine);
      if k == |body| { InsertReads(text, t); }
      else if Value(body[k]) != t { ReplaceReads(text, t); }
    }
  }

  /** The edit leaves a text alone exactly when it already declares that transport. */
  lemma UnchangedIffDeclared(text: string, t: string)
    requires OneWord(t)
    ensures Patched(text, t) == text <==> ReadBack(text) == Some(t)
  {
    var lines := SplitLines(text);
    if ReadBack(text) != Some(t) && Patched(text, t) == text {
      PatchReadsBack(text, t);
      assert UnterminatedMetadata(text);
      InsertMisses(text, t);
    }
  }

  /** Patching again changes nothing, except exactly in the mishandled case. */
  lemma PatchIdempotent(text: string, t: string)
    requires OneWord(t)
    ensures Patched(Patched(text, t), t) == Patched(text, t) <==> !UnterminatedMetadata(text)
  {
    PatchReadsBack(text, t);
    UnchangedIffDeclared(Patched(text, t), t);
  }

  /** Such a text: the first patch spoils the metadata line. */
  lemma UnterminatedExample(t: string)
    requires OneWord(t)
    ensures UnterminatedMetadata("metadata:") && Patched("metadata:", t) == "metadata:" + NewLine("  ", t)
  {
    hide NewLine, IsBreak, OneWord;
    MetadataLine();
    SplitFirstLine("metadata:", "");
    assert "metadata:" + "" == "metadata:";
    var lines, line := SplitLines("metadata:"), NewLine("  ", t);
    assert lines == ["metadata:"] && FindMetadata(lines) == 0;
    assert lines[..1] + [line] + lines[1..] == ["metadata:", line];
    JoinTwo("metadata:", line);
  }

  // ---------- The edit, line by line ----------

  predicate BlankOrIndented(line: string) {
    White(line) || line[0] == ' ' || line[0] == '\t'
  }

  predicate KeyLine(line: string, indent: string, gap: string, rest: string) {
    indent != "" && White(indent) && White(gap) && line == indent + "transport_type" + gap + ":" + rest
  }

  ghost predicate HoldsKey(line: string) {
    exists indent, gap, rest :: KeyLine(line, indent, gap, rest)
  }

  /** The metadata line is line `m`, the first one that starts so. */
  predicate MetadataAt(lines: seq<string>, m: nat) {
    m < |lines| && "metadata:" <= lines[m] && forall i | 0 <= i < m :: !("metadata:" <= lines[i])
  }

  /** Line `k` is the first one below line `m` that holds the key and a colon, and from `m` on every line is blank or
      indented. */
  ghost predicate EntryAt(lines: seq<string>, m: nat, k: nat) {
    && m < k < |lines| && HoldsKey(lines[k])
    && (forall i | m < i <= k :: BlankOrIndented(lines[i]))
    && forall i | m < i < k :: !HoldsKey(lines[i])
  }

  lemma EndsBlockExactly(line: string)
    requires line != ""
    ensures EndsBlock(line) <==> !BlankOrIndented(line)
  {
    hide IsSpace, Lstrip;
    LstripSplits(line);
    if White(line) {
      LstripIndent(line, "");
      assert line + "" == line;
    }
  }

  lemma KeyLineRead(line: string, indent: string, gap: string, rest: string)
    requires KeyLine(line, indent, gap, rest)
    ensures IsTransportLine(line) && Indent(line) == indent && AfterColon(line) == rest
  {
    hide Lstrip, AfterColon;
    var key := KEY + (gap + (":" + rest));
    assert line == indent + key;
    LstripIndent(indent, key);
    assert key[|KEY|..] == gap + (":" + rest);
    LstripIndent(gap, ":" + rest);
    var p := indent + KEY + gap;
    assert line == p + ":" + rest;
    assert forall i | 0 <= i < |KEY| :: KEY[i] != ':';
    AfterColonPrefix(p, rest);
  }

  lemma TransportLineParts(line: string) returns (indent: string, gap: string, rest: string)
    requires IsTransportLine(line)
    ensures KeyLine(line, indent, gap, rest)
  {
    var key := Lstrip(line);
    var after := key[|KEY|..];
    var colon := Lstrip(after);
    hide IsSpace, Lstrip;
    LstripSplits(line);
    LstripSplits(after);
    hide White;
    indent, gap, rest := line[..|line| - |key|], after[..|after| - |colon|], colon[1..];
    assert key == KEY + after;
    Assemble(line, indent, key, after, gap, colon, rest);
  }

  lemma Assemble(line: string, indent: string, key: string, after: string, gap: string, colon: string, rest: string)
    requires line == indent + key && key == KEY + after
    requires after == gap + colon && colon != "" && colon[0] == ':' && rest == colon[1..]
    ensures line == indent + "transport_type" + gap + ":" + rest
  {
    assert colon == ":" + rest;
  }

  /** A transport line is white space, the key, perhaps white space, and a colon. */
  lemma TransportLineExactly(line: string)
    ensures IsTransportLine(line) <==> HoldsKey(line)
  {
    hide IsTransportLine, KeyLine;
    if IsTransportLine(line) {
      var indent, gap, rest := TransportLineParts(line);
    }
    if indent, gap, rest :| KeyLine(line, indent, gap, rest) {
      KeyLineRead(line, indent, gap, rest);
    }
  }

  lemma MetadataExactly(lines: seq<string>, m: nat)
    ensures MetadataAt(lines, m) <==> m == FindMetadata(lines) < |lines|
  {
    FirstFound(lines, StartsMetadata);
    if MetadataAt(lines, m) {
      assert forall i | 0 <= i < m :: !StartsMetadata(lines[i]);
      FirstIs(lines, StartsMetadata, m);
    }
  }

  lemma LineExactly(lines: seq<string>, start: nat, i: nat)
    requires ProperLines(lines) && start + i < |lines|
    ensures EndsBlock(lines[start..][i]) <==> !BlankOrIndented(lines[start + i])
    ensures IsTransportLine(lines[start..][i]) <==> HoldsKey(lines[start + i])
  {
    assert IsLine(lines[start + i]);
    EndsBlockExactly(lines[start + i]);
    TransportLineExactly(lines[start + i]);
  }

  lemma EntryIsFirst(lines: seq<string>, m: nat, k: nat)
    requires ProperLines(lines) && FindMetadata(lines) == m < |lines| && EntryAt(lines, m, k)
    ensures k < m + 1 + |Body(lines)| && First(Body(lines), IsTransportLine) == k - m - 1
    ensures k < |lines| && Body(lines)[k - m - 1] == lines[k]
  {
    hide IsTransportLine, EndsBlock, HoldsKey, BlankOrIndented, ProperLines, First;
    var rest, body := lines[m + 1..], Body(lines);
    FirstFound(rest, EndsBlock);
    forall i | 0 <= i < k - m ensures !EndsBlock(rest[i]) { LineExactly(lines, m + 1, i); }
    assert k - m - 1 < First(rest, EndsBlock);
    forall i | 0 <= i < k - m - 1 ensures !IsTransportLine(body[i]) { LineExactly(lines, m + 1, i); }
    LineExactly(lines, m + 1, k - m - 1);
    FirstIs(body, IsTransportLine, k - m - 1);
  }

  lemma FirstIsEntry(lines: seq<string>, m: nat, k: nat)
    requires ProperLines(lines) && FindMetadata(lines) == m < |lines|
    requires m < k < m + 1 + |Body(lines)| && First(Body(lines), IsTransportLine) == k - m - 1
    ensures EntryAt(lines, m, k) && k < |lines| && Body(lines)[k - m - 1] == lines[k]
  {
    hide IsTransportLine, EndsBlock, HoldsKey, BlankOrIndented, ProperLines, First;
    var rest, body := lines[m + 1..], Body(lines);
    FirstFound(rest, EndsBlock);
    FirstFound(body, IsTransportLine);
    forall i | m < i <= k ensures BlankOrIndented(lines[i]) {
      LineExactly(lines, m + 1, i - m - 1);
      assert !EndsBlock(rest[i - m - 1]);
    }
    forall i | m < i < k ensures !HoldsKey(lines[i]) {
      LineExactly(lines, m + 1, i - m - 1);
      assert !IsTransportLine(body[i - m - 1]);
    }
    LineExactly(lines, m + 1, k - m - 1);
  }

  lemma EntryExactly(lines: seq<string>, m: nat, k: nat)
    requires ProperLines(lines) && MetadataAt(lines, m)
    ensures FindMetadata(lines) == m < |lines|
    ensures EntryAt(lines, m, k) <==> && m < k < m + 1 + |Body(lines)|
                                      && First(Body(lines), IsTransportLine) == k - m - 1
    ensures EntryAt(lines, m, k) ==> k < |lines| && Body(lines)[k - m - 1] == lines[k]
  {
    hide IsTransportLine, First, MetadataAt, FindMetadata, EntryAt, ProperLines, Body;
    MetadataExactly(lines, m);
    if EntryAt(lines, m, k) { EntryIsFirst(lines, m, k); }
    if m < k < m + 1 + |Body(lines)| && First(Body(lines), IsTransportLine) == k - m - 1 { FirstIsEntry(lines, m, k); }
  }

  lemma NewLineIs(indent: string, t: string)
    ensures NewLine(indent, t) == indent + "transport_type: " + t + "\n"
  {
    assert KEY + ": " == "transport_type: ";
    assert NewLine(indent, t) == indent + (KEY + ": ") + t + "\n";
  }

  lemma StripWhite(s: string)
    ensures Strip(s) == "" <==> White(s)
  {
    hide Strip, IsSpace;
    StripExactly(s, "");
    if White(s) {
      var lead, trail := s, "";
      assert White(trail) && s == lead + "" + trail;
    }
  }

  /** What is put before an appended block: a final newline if there is none, and a blank line unless there is one. */
  lemma SeparatorExactly(text: string)
    ensures var lines := SplitLines(text);
            Separator(text) == (if text == "" || text[|text| - 1] == '\n' then "" else "\n")
                               + (if lines == [] || White(lines[|lines| - 1]) then "" else "\n")
  {
    var lines := SplitLines(text);
    if lines != [] { StripWhite(lines[|lines| - 1]); }
    hide Strip, SplitLines, White;
  }

  /** Without a metadata line the block is appended. */
  lemma PatchAppends(text: string, t: string)
    requires forall m :: !MetadataAt(SplitLines(text), m)
    ensures Patched(text, t) == text + Separator(text) + ("metadata:\n" + ("  transport_type: " + t + "\n"))
  {
    var lines := SplitLines(text);
    MetadataExactly(lines, FindMetadata(lines));
    NewLineIs("  ", t);
    hide SplitLines, First, NewLine, Separator, MetadataAt;
  }

  /** With an entry in the metadata block its line is given the transport, keeping its indentation, unless it has it
      already. */
  lemma PatchReplaces(text: string, t: string, m: nat, k: nat, indent: string, gap: string, rest: string, value: string)
    requires MetadataAt(SplitLines(text), m) && EntryAt(SplitLines(text), m, k)
    requires KeyLine(SplitLines(text)[k], indent, gap, rest) && Trimmed(rest, value)
    ensures Patched(text, t)
         == if value == t then text
            else Join(SplitLines(text)[k := indent + "transport_type: " + t + "\n"])
  {
    hide SplitLines, First, Join, KeyLine, Trimmed, Indent, Strip, AfterColon, NewLine, EntryAt, MetadataAt,
         ProperLines, Ended, Body, IsTransportLine;
    SplitIsProper(text);
    EntryExactly(SplitLines(text), m, k);
    KeyLineRead(SplitLines(text)[k], indent, gap, rest);
    StripExactly(rest, value);
    NewLineIs(indent, t);
  }

  /** With a metadata line and no entry below it, one is inserted directly below. */
  lemma PatchInserts(text: string, t: string, m: nat)
    requires MetadataAt(SplitLines(text), m) && forall k :: !EntryAt(SplitLines(text), m, k)
    ensures var lines := SplitLines(text);
            m < |lines|
            && Patched(text, t) == Join(lines[..m + 1] + ["  transport_type: " + t + "\n"] + lines[m + 1..])
  {
    hide SplitLines, First, Join, Indent, Strip, AfterColon, NewLine, EntryAt, MetadataAt,
         ProperLines, Ended, Body, IsTransportLine;
    SplitIsProper(text);
    MetadataExactly(SplitLines(text), m);
    var lines := SplitLines(text);
    var k := First(Body(lines), IsTransportLine);
    EntryExactly(lines, m, m + 1 + k);
    assert !EntryAt(lines, m, m + 1 + k) && k == |Body(lines)|;
    NewLineIs("  ", t);
    assert "  " + "transport_type: " == "  transport_type: ";
  }

  /** The text declares this transport in line `k`. */
  ghost predicate DeclaredAt(lines: seq<string>, m: nat, k: nat, value: string) {
    && MetadataAt(lines, m) && EntryAt(lines, m, k)
    && exists indent, gap, rest :: KeyLine(lines[k], indent, gap, rest) && Trimmed(rest, value)
  }

  lemma ValueExactly(line: string, value: string)
    requires IsTransportLine(line)
    ensures Value(line) == value
       <==> exists indent, gap, rest :: KeyLine(line, indent, gap, rest) && Trimmed(rest, value)
  {
    hide IsTransportLine, KeyLine, Trimmed, Strip, AfterColon;
    TransportLineExactly(line);
    var indent, gap, rest :| KeyLine(line, indent, gap, rest);
    KeyLineRead(line, indent, gap, rest);
    StripExactly(rest, value);
    forall i, g, r | KeyLine(line, i, g, r) ensures r == rest { KeyLineRead(line, i, g, r); }
  }

  /** What is read is the value of the first entry of the metadata block. */
  lemma ReadBackExactly(text: string, value: string)
    ensures ReadBack(text) == Some(value) <==> exists m, k :: DeclaredAt(SplitLines(text), m, k, value)
  {
    hide SplitLines, First, KeyLine, Trimmed, EntryAt, MetadataAt, ProperLines, Ended, Body, IsTransportLine, Value;
    var lines := SplitLines(text);
    SplitIsProper(text);
    if ReadBack(text) == Some(value) {
      var m := FindMetadata(lines);
      MetadataExactly(lines, m);
      var k := m + 1 + First(Body(lines), IsTransportLine);
      EntryExactly(lines, m, k);
      FirstFound(Body(lines), IsTransportLine);
      ValueExactly(lines[k], value);
      assert DeclaredAt(lines, m, k, value);
    }
    if m: nat, k: nat :| DeclaredAt(lines, m, k, value) {
      EntryExactly(lines, m, k);
      FirstFound(Body(lines), IsTransportLine);
      ValueExactly(lines[k], value);
    }
  }

  // ---------- Everything else stays ----------

  lemma ReplaceFrame(lines: seq<string>, i: nat, line: string)
    requires i < |lines|
    ensures Join(lines) == Join(lines[..i]) + lines[i] + Join(lines[i + 1..])
    ensures Join(lines[i := line]) == Join(lines[..i]) + line + Join(lines[i + 1..])
  {
    assert lines == lines[..i] + [lines[i]] + lines[i + 1..];
    assert lines[i := line] == lines[..i] + [line] + lines[i + 1..];
    JoinConcat(lines[..i] + [lines[i]], lines[i + 1..]);
    JoinConcat(lines[..i] + [line], lines[i + 1..]);
    JoinConcat(lines[..i], [lines[i]]);
    JoinConcat(lines[..i], [line]);
    JoinOne(lines[i]);
    JoinOne(line);
  }

  /** Directly below line `m` nothing is cut. */
  predicate Below(lines: seq<string>, m: nat, before: string, cut: string, after: string) {
    m < |lines| && before == Join(lines[..m + 1]) && cut == "" && after == Join(lines[m + 1..])
  }

  /** Line `k` is cut. */
  predicate LineCut(lines: seq<string>, k: nat, before: string, cut: string, after: string) {
    k < |lines| && before == Join(lines[..k]) && cut == lines[k] && after == Join(lines[k + 1..])
  }

  /** The same key with the same indentation and the new transport. */
  ghost predicate Renewed(cut: string, put: string, t: string) {
    exists indent, gap, rest :: KeyLine(cut, indent, gap, rest) && put == indent + "transport_type: " + t + "\n"
  }

  lemma InsertFrame(lines: seq<string>, start: nat, line: string)
    requires start <= |lines|
    ensures Join(lines) == Join(lines[..start]) + Join(lines[start..])
    ensures Join(lines[..start] + [line] + lines[start..]) == Join(lines[..start]) + line + Join(lines[start..])
  {
    hide Join;
    assert lines == lines[..start] + lines[start..];
    JoinConcat(lines[..start], lines[start..]);
    JoinConcat(lines[..start] + [line], lines[start..]);
    JoinConcat(lines[..start], [line]);
    JoinOne(line);
  }

  lemma EntryLine(lines: seq<string>, k: nat)
    requires FindMetadata(lines) < |lines| && k == First(Body(lines), IsTransportLine) < |Body(lines)|
    ensures FindMetadata(lines) + 1 + k < |lines| && lines[FindMetadata(lines) + 1 + k] == Body(lines)[k]
    ensures IsTransportLine(Body(lines)[k]) && !EndsBlock(Body(lines)[k]) && Body(lines)[k] in lines
  {
    hide IsTransportLine, EndsBlock, StartsMetadata, First;
    var start := FindMetadata(lines) + 1;
    var rest := lines[start..];
    FirstFound(Body(lines), IsTransportLine);
    FirstFound(rest, EndsBlock);
    assert Body(lines)[k] == rest[k] == lines[start + k];
  }

  /** Old and new text differ in one stretch only: nothing at all, a block appended behind the whole old text that had
      no metadata line, a line inserted directly below a metadata line with no entry, or the first entry of the block
      renewed with its indentation. */
  lemma PatchFrame(text: string, t: string)
    returns (before: string, cut: string, put: string, after: string, m: nat, k: nat)
    ensures text == before + cut + after && Patched(text, t) == before + put + after
    ensures var lines := SplitLines(text);
            || (cut == put == "")
            || ((forall i :: !MetadataAt(lines, i)) && before == text && cut == "" == after
                && put == Separator(text) + ("metadata:\n" + ("  transport_type: " + t + "\n")))
            || (MetadataAt(lines, m) && (forall i :: !EntryAt(lines, m, i)) && Below(lines, m, before, cut, after)
                && put == "  transport_type: " + t + "\n")
            || (MetadataAt(lines, m) && EntryAt(lines, m, k) && LineCut(lines, k, before, cut, after)
                && Renewed(cut, put, t))
  {
    hide *;
    var lines := SplitLines(text);
    JoinSplit(text);
    SplitIsProper(text);
    m, k := FindMetadata(lines), 0;
    MetadataExactly(lines, m);
    NewLineIs("  ", t);
    if forall i :: !MetadataAt(lines, i) {
      PatchAppends(text, t);
      before, cut, put, after := text, "", Separator(text) + ("metadata:\n" + ("  transport_type: " + t + "\n")), "";
    } else {
      var i: nat :| MetadataAt(lines, i);
      MetadataExactly(lines, i);
      before, cut, put, after, k := PatchFrameInBlock(text, t, m);
    }
  }

  lemma PatchFrameInBlock(text: string, t: string, m: nat)
    returns (before: string, cut: string, put: string, after: string, k: nat)
    requires MetadataAt(SplitLines(text), m)
    ensures text == before + cut + after && Patched(text, t) == before + put + after
    ensures var lines := SplitLines(text);
            || (cut == put == "")
            || ((forall i :: !EntryAt(lines, m, i)) && Below(lines, m, before, cut, after)
                && put == "  transport_type: " + t + "\n")
            || (EntryAt(lines, m, k) && LineCut(lines, k, before, cut, after) && Renewed(cut, put, t))
  {
    hide SplitLines, Join, EntryAt, KeyLine, Trimmed, Patched, MetadataAt;
    var lines := SplitLines(text);
    JoinSplit(text);
    if forall i :: !EntryAt(lines, m, i) {
      PatchInserts(text, t, m);
      k := 0;
      put := "  transport_type: " + t + "\n";
      before, cut, after := Join(lines[..m + 1]), "", Join(lines[m + 1..]);
      InsertFrame(lines, m + 1, put);
    } else {
      k :| EntryAt(lines, m, k);
      var indent, gap, rest := EntryParts(lines, m, k);
      StripExactly(rest, Strip(rest));
      PatchReplaces(text, t, m, k, indent, gap, rest, Strip(rest));
      if Strip(rest) == t {
        before, cut, put, after := text, "", "", "";
      } else {
        put := indent + "transport_type: " + t + "\n";
        before, cut, after := Join(lines[..k]), lines[k], Join(lines[k + 1..]);
        ReplaceFrame(lines, k, put);
      }
    }
  }

  lemma EntryParts(lines: seq<string>, m: nat, k: nat) returns (indent: string, gap: string, rest: string)
    requires EntryAt(lines, m, k)
    ensures k < |lines| && KeyLine(lines[k], indent, gap, rest)
  {
    indent, gap, rest :| KeyLine(lines[k], indent, gap, rest);
  }

  // ---------- The edit as the program does it ----------

  method SetMetadataTransportType(text: string, transport: string) returns (newText: string)
    ensures newText == Patched(text, transport)
  {
    hide IsBreak, IsSpace, NewLine, IsTransportLine, IsLine, Ended, Value, SplitLines, Strip, Separator, Indent,
         First, Join, AfterColon, Rstrip, ProperLines, OneWord, ReadLines;
    var lines := SplitLines(text);
    var metadataIdx := 0;
    while metadataIdx < |lines| && !(METADATA <= lines[metadataIdx])
      invariant metadataIdx <= |lines|
      invariant forall i | 0 <= i < metadataIdx :: !StartsMetadata(lines[i])
    {
      metadataIdx := metadataIdx + 1;
    }
    FirstIs(lines, StartsMetadata, metadataIdx);
    var newLine := NewLine("  ", transport);
    if metadataIdx == |lines| {
      newText := AppendBlock(text, lines, newLine);
      return;
    }
    var bodyStart := metadataIdx + 1;
    ghost var rest := lines[bodyStart..];
    var bodyEnd := bodyStart;
    while bodyEnd < |lines| && !(Lstrip(lines[bodyEnd]) != "" && lines[bodyEnd][0] != ' ' && lines[bodyEnd][0] != '\t')
      invariant bodyStart <= bodyEnd <= |lines|
      invariant forall i | 0 <= i < bodyEnd - bodyStart :: !EndsBlock(rest[i])
    {
      assert rest[bodyEnd - bodyStart] == lines[bodyEnd];
      bodyEnd := bodyEnd + 1;
    }
    FirstIs(rest, EndsBlock, bodyEnd - bodyStart);
    ghost var body := Body(lines);
    var i := bodyStart;
    while i < bodyEnd
      invariant bodyStart <= i <= bodyEnd
      invariant forall j | 0 <= j < i - bodyStart :: !IsTransportLine(body[j])
    {
      assert body[i - bodyStart] == lines[i];
      if IsTransportLine(lines[i]) {
        FirstIs(body, IsTransportLine, i - bodyStart);
        if Value(lines[i]) == transport {
          return text;
        }
        return Join(lines[i := NewLine(Indent(lines[i]), transport)]);
      }
      i := i + 1;
    }
    FirstIs(body, IsTransportLine, |body|);
    newText := Join(lines[..bodyStart] + [newLine] + lines[bodyStart..]);
  }

  /** No metadata block yet: repair the final newline, separate, append. */
  method AppendBlock(text: string, lines: seq<string>, newLine: string) returns (newText: string)
    requires lines == SplitLines(text)
    ensures newText == text + Separator(text) + ("metadata:\n" + newLine)
  {
    SplitIsProper(text);
    JoinSplit(text);
    newText := text;
    if lines != [] && lines[|lines| - 1][|lines[|lines| - 1]| - 1] != '\n' {
      LastCharacter(text);
      newText := newText + "\n";
    } else if lines != [] {
      LastCharacter(text);
    }
    if lines != [] && Strip(lines[|lines| - 1]) != "" {
      newText := newText + "\n";
    }
    newText := newText + ("metadata:\n" + newLine);
  }

  lemma {:induction false} LastCharacter(text: string)
    requires text != ""
    ensures var lines := SplitLines(text);
            lines != [] && lines[|lines| - 1] != "" && lines[|lines| - 1][|lines[|lines| - 1]| - 1] == text[|text| - 1]
  {
    hide IsBreak, SplitLines;
    var rest := SplitLines(text[1..]);
    assert text == [text[0]] + text[1..];
    SplitStep(text[0], text[1..]);
    if |text| == 1 {
      NoLines();
      assert text[1..] == "" && text[0] == text[|text| - 1];
    } else {
      LastCharacter(text[1..]);
      LastOfPrepended(text[0], rest);
    }
  }

  lemma NoLines()
    ensures SplitLines("") == []
  {
  }

  lemma LastOfPrepended(c: char, rest: seq<string>)
    requires rest != [] && rest[|rest| - 1] != ""
    ensures var (cut, kept) := ([[c]] + rest, [[c] + rest[0]] + rest[1..]);
            var last := rest[|rest| - 1][|rest[|rest| - 1]| - 1];
            && cut[|cut| - 1] != "" && cut[|cut| - 1][|cut[|cut| - 1]| - 1] == last
            && kept[|kept| - 1] != "" && kept[|kept| - 1][|kept[|kept| - 1]| - 1] == last
  {
  }
}
