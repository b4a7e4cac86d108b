/** The environment file: what write_env prints (scripts/render-topology.py) and what the test suite reads back
    (tests/conftest.py). */
module EnvFile {
  import opened Text

  /** Line boundaries of splitlines and the white space strip removes, as far as single characters go. */
  predicate IsBreak(c: char) {
    || 10 <= c as int <= 13 || 28 <= c as int <= 30 || c as int == 0x85 || c as int == 0x2028 || c as int == 0x2029
  }

  predicate IsSpace(c: char) {
    || IsBreak(c) || c as int == 9 || c as int == 31 || c as int == 32 || c as int == 0xA0 || c as int == 0x1680
    || 0x2000 <= c as int <= 0x200A || c as int == 0x202F || c as int == 0x205F || c as int == 0x3000
  }

  // ---------- writing ----------

  /** Entries in the order they are printed; an empty value is not printed. */
  type Entries = seq<(string, string)>

  function Line(e: (string, string)): string { e.0 + "=" + e.1 }

  function Printed(entries: Entries): (r: string)
    ensures r != [] ==> r[|r| - 1] == '\n'
  {
    if entries == [] then []
    else (if entries[0].1 == "" then [] else Line(entries[0]) + "\n") + Printed(entries[1..])
  }

  /** "\n".join(lines) + "\n": with no line to print the file is a lone line break. */
  function WriteEnv(entries: Entries): (r: string)
    ensures r != [] && r[|r| - 1] == '\n'
  {
    var text := Printed(entries);
    if text == "" then "\n" else text
  }

  /** With nothing to print the file is one empty line, and otherwise it has text. */
  lemma {:induction false} EmptyExactly(entries: Entries)
    ensures Printed(entries) == "" <==> forall e :: e in entries ==> e.1 == ""
    ensures (forall e :: e in entries ==> e.1 == "") ==> WriteEnv(entries) == "\n"
  {
    if entries != [] {
      EmptyExactly(entries[1..]);
      assert forall e :: e in entries <==> e == entries[0] || e in entries[1..];
    }
  }

  // ---------- reading ----------

  function Lstrip(s: string): string { if s != [] && IsSpace(s[0]) then Lstrip(s[1..]) else s }

  function Rstrip(s: string): string { if s != [] && IsSpace(s[|s| - 1]) then Rstrip(s[..|s| - 1]) else s }

  function Strip(s: string): string { Rstrip(Lstrip(s)) }

  /** splitlines, an empty last line included; blank lines are skipped anyway. */
  function Lines(s: string): (r: seq<string>)
    ensures r != []
  {
    if s == [] then [""]
    else
      var rest := Lines(s[1..]);
      if IsBreak(s[0]) then [""] + rest else [[s[0]] + rest[0]] + rest[1..]
  }

  /** What one line contributes. */
  function ParseLine(line: string): Option<(string, string)> {
    var l := Strip(line);
    if l == "" || l[0] == '#' then None else SplitFirst(l, '=')
  }

  function Load(lines: seq<string>, data: map<string, string>): map<string, string>
    decreases lines
  {
    if lines == [] then data
    else
      var p := ParseLine(lines[0]);
      Load(lines[1..], if p.Some? then data[p.value.0 := p.value.1] else data)
  }

  method LoadEnvFile(text: string) returns (data: map<string, string>)
    ensures data == Load(Lines(text), map[])
  {
    data := map[];
    var lines := Lines(text);
    assert lines[0..] == lines;
    for k := 0 to |lines|
      invariant Load(lines, map[]) == Load(lines[k..], data)
    {
      assert lines[k..][1..] == lines[k + 1..];
      var line := Strip(lines[k]);
      if line == "" || line[0] == '#' || '=' !in line {
        continue;
      }
      var p := SplitFirst(line, '=').value;
      data := data[p.0 := p.1];
    }
  }

  // ---------- one line ----------

  predicate NoBreak(s: string) { forall c :: c in s ==> !IsBreak(c) }

  /** Keys and values that survive the trip. */
  predicate Plain(e: (string, string)) {
    && '=' !in e.0
    && (e.0 != "" ==> !IsSpace(e.0[0]) && e.0[0] != '#')
    && (e.1 != "" ==> !IsSpace(e.1[|e.1| - 1]))
  }

  lemma {:induction false} LstripIs(s: string)
    ensures Lstrip(s) == s <==> s == "" || !IsSpace(s[0])
    ensures |Lstrip(s)| < |s| || Lstrip(s) == s
  {
    if s != [] && IsSpace(s[0]) { LstripIs(s[1..]); }
  }

  lemma {:induction false} RstripIs(s: string)
    ensures Rstrip(s) == s <==> s == "" || !IsSpace(s[|s| - 1])
    ensures |Rstrip(s)| < |s| || Rstrip(s) == s
  {
    if s != [] && IsSpace(s[|s| - 1]) { RstripIs(s[..|s| - 1]); }
  }

  lemma StripIs(s: string)
    ensures Strip(s) == s <==> s == "" || (!IsSpace(s[0]) && !IsSpace(s[|s| - 1]))
    ensures |Strip(s)| <= |s|
  {
    LstripIs(s);
    RstripIs(Lstrip(s));
  }

  /** A printed line reads back as its entry exactly when the entry is plain. */
  lemma LineExactly(e: (string, string))
    requires e.1 != ""
    ensures ParseLine(Line(e)) == Some(e) <==> Plain(e)
  {
    var l := Line(e);
    StripIs(l);
    assert l[0] == (if e.0 == "" then '=' else e.0[0]) && l[|l| - 1] == e.1[|e.1| - 1];
    if Plain(e) {
      SplitFirstOf(e.0, e.1, '=');
    }
    if ParseLine(l) == Some(e) {
      var s := Strip(l);
      assert s == e.0 + ['='] + e.1;
      assert s == l;
    }
  }

  // ---------- the whole file ----------

  lemma {:induction false} LinesOfLine(a: string, b: string)
    requires NoBreak(a)
    ensures Lines(a + "\n" + b) == [a] + Lines(b)
  {
    var s := a + "\n" + b;
    if a == [] {
      assert s[1..] == b;
    } else {
      assert s[1..] == a[1..] + "\n" + b;
      assert forall c :: c in a[1..] ==> c in a;
      LinesOfLine(a[1..], b);
      assert a == [a[0]] + a[1..];
    }
  }

  /** Entries that survive: the text of an empty one is never printed. */
  predicate Survives(e: (string, string)) { e.1 != "" ==> Plain(e) && NoBreak(Line(e)) }

  predicate KeysDistinct(entries: Entries) {
    forall i, j :: 0 <= i < j < |entries| ==> entries[i].0 != entries[j].0
  }

  /** The dictionary is the non-empty entries, each under its key, and nothing else. */
  predicate IsEntries(data: map<string, string>, entries: Entries) {
    && (forall k :: k in data ==> (k, data[k]) in entries && data[k] != "")
    && forall e :: e in entries && e.1 != "" ==> e.0 in data && data[e.0] == e.1
  }

  /** The dictionary the reader builds from lines that survive. */
  function Values(entries: Entries): map<string, string> {
    if entries == [] then map[]
    else
      var last := entries[|entries| - 1];
      var rest := Values(entries[..|entries| - 1]);
      if last.1 == "" then rest else rest[last.0 := last.1]
  }

  lemma {:induction false} LoadPrinted(entries: Entries, done: Entries)
    requires forall e :: e in entries ==> Survives(e)
    ensures Load(Lines(Printed(entries)), Values(done)) == Values(done + entries)
    decreases entries
  {
    if entries == [] {
      assert done + entries == done;
      assert Lines("") == [""];
      assert Load([""], Values(done)) == Load([], Values(done));
    } else {
      var e, rest := entries[0], entries[1..];
      assert e in entries && forall x :: x in rest ==> x in entries;
      assert done + entries == (done + [e]) + rest;
      assert (done + [e])[..|done|] == done;
      LoadPrinted(rest, done + [e]);
      if e.1 == "" {
        assert Printed(entries) == Printed(rest);
      } else {
        LinesOfLine(Line(e), Printed(rest));
        assert Printed(entries) == Line(e) + "\n" + Printed(rest);
        LineExactly(e);
        assert Lines(Printed(entries))[1..] == Lines(Printed(rest));
      }
    }
  }

  lemma LoadWritten(entries: Entries)
    requires forall e :: e in entries ==> Survives(e)
    ensures Load(Lines(WriteEnv(entries)), map[]) == Values(entries)
  {
    LoadPrinted(entries, []);
    assert [] + entries == entries;
    if Printed(entries) == "" {
      LinesOfLine("", "");
      assert Lines("") == [""];
      assert "" + "\n" + "" == "\n";
      assert Load(["", ""], map[]) == Load([""], map[]) by { assert ["", ""][1..] == [""]; }
    }
  }

  lemma {:induction false} ValuesExactly(entries: Entries)
    requires KeysDistinct(entries)
    ensures IsEntries(Values(entries), entries)
  {
    if entries != [] {
      var last, rest := entries[|entries| - 1], entries[..|entries| - 1];
      ValuesExactly(rest);
      assert forall e :: e in entries <==> e in rest || e == last;
    }
  }

  // ---------- nothing else can come out of the reader ----------

  lemma {:induction false} LinesUnbroken(s: string)
    ensures forall l :: l in Lines(s) ==> NoBreak(l)
  {
    if s != [] {
      var rest := Lines(s[1..]);
      LinesUnbroken(s[1..]);
      assert rest[0] in rest && forall l :: l in rest[1..] ==> l in rest;
    }
  }

  lemma {:induction false} StripFacts(s: string)
    ensures forall c :: c in Lstrip(s) ==> c in s
    ensures forall c :: c in Rstrip(s) ==> c in s
    ensures Lstrip(s) != "" ==> !IsSpace(Lstrip(s)[0])
    ensures Rstrip(s) != "" ==> !IsSpace(Rstrip(s)[|Rstrip(s)| - 1]) && Rstrip(s)[0] == s[0]
  {
    LstripEnds(s);
    RstripEnds(s);
  }

  lemma {:induction false} LstripEnds(s: string)
    ensures forall c :: c in Lstrip(s) ==> c in s
    ensures Lstrip(s) != "" ==> !IsSpace(Lstrip(s)[0])
  {
    if s != [] && IsSpace(s[0]) { LstripEnds(s[1..]); }
  }

  lemma {:induction false} RstripEnds(s: string)
    ensures forall c :: c in Rstrip(s) ==> c in s
    ensures Rstrip(s) != "" ==> !IsSpace(Rstrip(s)[|Rstrip(s)| - 1]) && Rstrip(s)[0] == s[0]
  {
    if s != [] && IsSpace(s[|s| - 1]) { RstripEnds(s[..|s| - 1]); }
  }

  /** Whatever a line contributes is plain and unbroken. */
  lemma ParsedIsPlain(line: string)
    requires NoBreak(line) && ParseLine(line).Some?
    ensures Plain(ParseLine(line).value) && NoBreak(Line(ParseLine(line).value))
  {
    var l, p := Strip(line), ParseLine(line).value;
    StripFacts(line);
    StripFacts(Lstrip(line));
    assert l == p.0 + ['='] + p.1 && l == Line(p);
    assert p.0 != "" ==> p.0[0] == l[0];
    assert p.1 != "" ==> p.1[|p.1| - 1] == l[|l| - 1];
  }

  predicate AllPlain(data: map<string, string>) {
    forall k :: k in data ==> Plain((k, data[k])) && NoBreak(Line((k, data[k])))
  }

  lemma {:induction false} LoadedIsPlain(lines: seq<string>, data: map<string, string>)
    requires (forall l :: l in lines ==> NoBreak(l)) && AllPlain(data)
    ensures AllPlain(Load(lines, data))
    decreases lines
  {
    if lines != [] {
      var p := ParseLine(lines[0]);
      assert lines[0] in lines && forall l :: l in lines[1..] ==> l in lines;
      if p.Some? { ParsedIsPlain(lines[0]); }
      LoadedIsPlain(lines[1..], if p.Some? then data[p.value.0 := p.value.1] else data);
    }
  }

  /** Reading what was written gives exactly the non-empty entries if and only if each of these has a key without "=",
      leading "#" or leading white space, a value without trailing white space, and no line break in either. */
  lemma RoundTrip(entries: Entries)
    requires KeysDistinct(entries)
    ensures IsEntries(Load(Lines(WriteEnv(entries)), map[]), entries) <==> forall e :: e in entries ==> Survives(e)
  {
    var data := Load(Lines(WriteEnv(entries)), map[]);
    if forall e :: e in entries ==> Survives(e) {
      LoadWritten(entries);
      ValuesExactly(entries);
    }
    if IsEntries(data, entries) {
      LinesUnbroken(WriteEnv(entries));
      LoadedIsPlain(Lines(WriteEnv(entries)), map[]);
      forall e | e in entries ensures Survives(e) {
        if e.1 != "" { assert e == (e.0, data[e.0]); }
      }
    }
  }
}
