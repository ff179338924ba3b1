/** The round trip of whole manifests, and what every manifest that was read satisfies. */
module ManifestLaw {
  import opened Words
  import opened Text
  import opened TomlLite
  import opened ManifestText
  import opened ManifestRoundTrip

  // ---- The conditions ----

  predicate NoNewline(s: string) {
    '\n' !in s
  }

  predicate NoNewlineIn(o: Option<string>) {
    o.Some? ==> NoNewline(o.value)
  }

  predicate OneLineStrings(e: Entry) {
    NoNewline(e.name) && NoNewline(e.path) && NoNewlineIn(e.note) && NoNewlineIn(e.wineBoot) && NoNewlineIn(e.stop)
  }

  /** An entry that the printed form can carry. */
  predicate Printable(e: Entry) {
    OneLineStrings(e) && CountsFit(e) && (e.rip.Some? ==> FitsI64(e.rip.value)) &&
    (e.outcome != Exit ==> e.exitCode == 0)
  }

  /** A header made of comments and blank lines only. */
  predicate HeaderOk(header: string) {
    forall l :: l in Lines(Terminated(header)) ==> Skipped(Trim(l))
  }

  /** What the header reads as after one print. */
  function Reheader(header: string): string {
    DropBlankTail(Unlines(Lines(Terminated(header))) + "\n")
  }

  // ---- Running over a printed body ----

  lemma ReadableExactly(e: Entry)
    ensures Readable(e, FIELDS) <==> CountsFit(e)
  {
    forall i | 0 <= i < FIELDS && FieldText(e, i).Some? && CountsFit(e)
      ensures FieldValue(e, i).Some?
    {
      FieldReads(e, i);
    }
    if Readable(e, FIELDS) {
      assert FieldText(e, 8).Some? && FieldText(e, 11).Some? && FieldText(e, 12).Some?;
      assert e.artifacts.Some? ==> FieldText(e, 13).Some?;
    }
  }

  lemma CloseAnywhere(st: Parsing, a: nat, b: nat)
    requires Close(st, a).Ok?
    ensures Close(st, b) == Close(st, a)
  {
    hide Get, AsU64, NameOf;
  }

  function RereadAll(es: seq<Entry>): seq<Entry> {
    if es == [] then [] else [Reread(es[0])] + RereadAll(es[1..])
  }

  predicate AllCountsFit(es: seq<Entry>) {
    forall k :: 0 <= k < |es| ==> CountsFit(es[k])
  }

  /** The blank line and the table heading close the table before. */
  lemma RunHeading(st: Parsing, at: nat) returns (next: Parsing)
    requires Close(st, 0).Ok?
    ensures next == Parsing(st.header + if st.inHeader then "\n" else "", Close(st, 0).value, Some([]), false)
    ensures Run(st, ["", "[[binary]]"], at) == Ok(next)
  {
    hide FromPairs;
    var first := if st.inHeader then st.(header := st.header + "\n") else st;
    assert st.header + "" + "\n" == st.header + "\n" && st.header + "" == st.header;
    assert Step(st, "", at) == Ok(first);
    CloseAnywhere(st, 0, at + 1);
    TrimTight("[[binary]]");
    next := Parsing(first.header, Close(st, 0).value, Some([]), false);
    assert Step(first, "[[binary]]", at + 1) == Ok(next);
    assert ["", "[[binary]]"][1..] == ["[[binary]]"];
    RunOne(first, "[[binary]]", at + 1);
  }

  lemma RunEntry(st: Parsing, e: Entry, at: nat) returns (next: Parsing)
    requires Close(st, 0).Ok?
    ensures CountsFit(e) ==> Run(st, EntryLines(e), at) == Ok(next) && !next.inHeader
    ensures CountsFit(e) ==> Close(next, 0) == Ok(Close(st, 0).value + [Reread(e)])
    ensures next.header == st.header + if st.inHeader then "\n" else ""
    ensures !CountsFit(e) ==> Run(st, EntryLines(e), at).Err?
  {
    hide Step, FieldLines, PairsOf, FromPairs, Readable, CountsFit, Reread;
    var opening := RunHeading(st, at);
    RunAcross(st, ["", "[[binary]]"], FieldLines(e, FIELDS), at);
    RunFields(opening, e, FIELDS, at + 2);
    ReadableExactly(e);
    next := opening.(cur := Some(opening.cur.value + PairsOf(e, FIELDS)));
    if CountsFit(e) {
      assert opening.cur.value + PairsOf(e, FIELDS) == PairsOf(e, FIELDS);
      FromPairsReads(e, 0);
    }
  }

  lemma RunNothing(st: Parsing, at: nat)
    ensures Run(st, BodyLines([]), at) == Ok(st)
  {
  }

  lemma NoCounts()
    ensures AllCountsFit([]) && RereadAll([]) == []
  {
  }

  lemma BodySplit(es: seq<Entry>, before: seq<Entry>)
    requires es != []
    ensures BodyLines(es) == EntryLines(es[0]) + BodyLines(es[1..])
    ensures before + RereadAll(es) == before + [Reread(es[0])] + RereadAll(es[1..])
  {
    hide EntryLines, Reread;
  }

  lemma CountsFitSplit(es: seq<Entry>)
    requires es != []
    ensures AllCountsFit(es) <==> CountsFit(es[0]) && AllCountsFit(es[1..])
  {
    hide CountsFit;
    assert forall k :: 0 < k < |es| ==> es[k] == es[1..][k - 1];
  }

  lemma {:induction false} RunBody(st: Parsing, es: seq<Entry>, at: nat) returns (next: Parsing)
    requires Close(st, 0).Ok?
    ensures AllCountsFit(es) ==> Run(st, BodyLines(es), at) == Ok(next)
    ensures AllCountsFit(es) ==> Close(next, 0) == Ok(Close(st, 0).value + RereadAll(es))
    ensures AllCountsFit(es) ==> next.header == st.header + if st.inHeader && es != [] then "\n" else ""
    ensures !AllCountsFit(es) ==> Run(st, BodyLines(es), at).Err?
    decreases |es|
  {
    hide Run, Step, EntryLines, BodyLines, RereadAll, Close, CountsFit, Reread, AllCountsFit;
    next := st;
    if es == [] {
      RunNothing(st, at);
      assert Close(st, 0).value + [] == Close(st, 0).value && st.header + "" == st.header;
      NoCounts();
    } else {
      CountsFitSplit(es);
      BodySplit(es, Close(st, 0).value);
      var mid := RunEntry(st, es[0], at);
      RunAcross(st, EntryLines(es[0]), BodyLines(es[1..]), at);
      if CountsFit(es[0]) {
        next := RunBody(mid, es[1..], at + |EntryLines(es[0])|);
        assert mid.header + "" == mid.header;
      }
    }
  }

  lemma {:induction false} RunHeader(st: Parsing, hs: seq<string>, at: nat)
    requires st.inHeader && forall l :: l in hs ==> Skipped(Trim(l))
    ensures Run(st, hs, at) == Ok(st.(header := st.header + Unlines(hs)))
    decreases |hs|
  {
    hide Trim;
    if hs == [] {
      assert st.header + "" == st.header;
    } else {
      assert Skipped(Trim(hs[0]));
      assert "[[binary]]"[0] == '[';
      var next := st.(header := st.header + hs[0] + "\n");
      assert Step(st, hs[0], at) == Ok(next);
      RunHeader(next, hs[1..], at + 1);
      assert next.header + Unlines(hs[1..]) == st.header + Unlines(hs);
    }
  }

  // ---- The printed text has the printed lines ----

  lemma {:induction false} EscapeKeeps(s: string, c: char)
    requires c != '\\'
    ensures c in Escape(s) ==> c in s
  {
    if s != "" {
      EscapeKeeps(s[1..], c);
    }
  }

  lemma FieldTextIsOneLine(e: Entry, i: nat)
    requires i < FIELDS && OneLineStrings(e) && FieldText(e, i).Some?
    ensures NoNewline(FieldText(e, i).value)
  {
    hide Quote, Digits, Decimal, NoNewline;
    match i {
      case 0 => QuoteIsOneLine(e.name);
      case 1 => QuoteIsOneLine(e.path);
      case 2 => QuoteIsOneLine(e.note.value);
      case 7 => QuoteIsOneLine(e.wineBoot.value);
      case 8 => DecimalIsOneLine(e.maxSteps);
      case 9 => OutcomeIsOneLine(e.outcome);
      case 10 => DecimalIsOneLine(e.exitCode);
      case 11 => DecimalIsOneLine(e.steps);
      case 12 => DecimalIsOneLine(e.tolerance);
      case 13 => DecimalIsOneLine(e.artifacts.value);
      case 14 => AddressIsOneLine(e.rip.value);
      case 15 => QuoteIsOneLine(e.stop.value);
      case _ => FlagIsOneLine(if i == 3 then e.quick else true);
    }
  }

  lemma QuoteIsOneLine(s: string)
    requires NoNewline(s)
    ensures NoNewline(Quote(s))
  {
    EscapeKeeps(s, '\n');
  }

  lemma OutcomeIsOneLine(o: Outcome)
    ensures NoNewline(Quote(o.AsStr()))
  {
    hide Quote;
    QuoteIsOneLine(o.AsStr());
  }

  lemma AddressIsOneLine(n: nat)
    ensures NoNewline(Quote("0x" + Digits(n, 16)))
  {
    hide Quote;
    DigitsAreDigits(n, 16);
    QuoteIsOneLine("0x" + Digits(n, 16));
  }

  lemma FlagIsOneLine(b: bool)
    ensures NoNewline(FlagText(b))
  {
  }

  lemma DecimalIsOneLine(n: int)
    ensures NoNewline(Decimal(n))
  {
    DecimalIsBare(n);
    assert forall k :: 0 <= k < |Decimal(n)| ==> BareChar(Decimal(n)[k]);
  }

  lemma FieldLineIsPlain(key: string, v: string)
    requires KeyText(key) && Tight(v) && NoNewline(v)
    ensures PlainLine(FieldLine(key, v))
  {
    FieldLineParts(key, v);
    assert forall k :: 0 <= k < |key| ==> KeyChar(key[k]);
    assert NoNewline(key) && NoNewline(Spaces(Padding(key)));
  }

  lemma {:induction false} FieldLinesArePlain(e: Entry, n: nat)
    requires n <= FIELDS && OneLineStrings(e)
    ensures forall l :: l in FieldLines(e, n) ==> PlainLine(l)
  {
    hide FieldText, FieldValue, Key, FieldLine, OneLineStrings, NoNewline, PlainLine;
    if n > 0 {
      FieldLinesArePlain(e, n - 1);
      if FieldText(e, n - 1).Some? {
        FieldReads(e, n - 1);
        FieldTextIsOneLine(e, n - 1);
        KeysAreKeyText(n - 1);
        FieldLineIsPlain(Key(n - 1), FieldText(e, n - 1).value);
      }
    }
  }

  lemma {:induction false} BodyLinesArePlain(es: seq<Entry>)
    requires forall e :: e in es ==> OneLineStrings(e)
    ensures forall l :: l in BodyLines(es) ==> PlainLine(l)
  {
    hide OneLineStrings, FieldLines;
    if es != [] {
      FieldLinesArePlain(es[0], FIELDS);
      BodyLinesArePlain(es[1..]);
    }
  }

  lemma TerminatedIsWhole(header: string)
    ensures WholeLines(Terminated(header))
  {
  }

  lemma LinesOfPrinted(m: Contents)
    requires forall e :: e in m.entries ==> OneLineStrings(e)
    ensures Lines(ToToml(m)) == Lines(Terminated(m.header)) + BodyLines(m.entries)
  {
    TerminatedIsWhole(m.header);
    LinesAcross(Terminated(m.header), Unlines(BodyLines(m.entries)));
    BodyLinesArePlain(m.entries);
    LinesOfUnlines(BodyLines(m.entries));
  }

  // ---- Reading a printed manifest ----

  /** Printed one-line strings: reading fails exactly when a count does not fit, and
      otherwise yields every entry, less an unprinted exit code or an oversized address. */
  lemma ReadPrinted(m: Contents)
    requires HeaderOk(m.header) && m.entries != []
    requires forall e :: e in m.entries ==> OneLineStrings(e)
    ensures AllCountsFit(m.entries) ==>
      ParseManifest(ToToml(m)) == Ok(Contents(Reheader(m.header), RereadAll(m.entries)))
    ensures !AllCountsFit(m.entries) ==> ParseManifest(ToToml(m)).Err?
  {
    hide Run, Lines, Step, BodyLines, Unlines, OneLineStrings, AllCountsFit, FromPairs, ToToml, DropBlankTail, Skipped, Trim, Terminated;
    var hs := Lines(Terminated(m.header));
    LinesOfPrinted(m);
    RunAcross(START, hs, BodyLines(m.entries), 1);
    RunHeader(START, hs, 1);
    var st := START.(header := START.header + Unlines(hs));
    var end := RunBody(st, m.entries, 1 + |hs|);
    if AllCountsFit(m.entries) {
      CloseAnywhere(end, 0, |Lines(ToToml(m))|);
      assert Close(st, 0).value == [];
      assert [] + RereadAll(m.entries) == RereadAll(m.entries);
      assert "" + Unlines(hs) + "\n" == Unlines(hs) + "\n";
      RereadAt(m.entries);
    }
  }

  lemma {:induction false} RereadAt(es: seq<Entry>)
    ensures |RereadAll(es)| == |es|
    ensures forall k :: 0 <= k < |es| ==> RereadAll(es)[k] == Reread(es[k])
  {
    hide Reread;
    if es != [] {
      RereadAt(es[1..]);
    }
  }

  // ---- What reading guarantees ----

  lemma {:induction false} UnquoteKeeps(s: string, out: string, c: char)
    requires Unquote(s, out).Some? && c in Unquote(s, out).value
    ensures c in s || c in out
    decreases |s|
  {
    if s[0] == '"' {
    } else if s[0] == '\\' {
      UnquoteKeeps(s[2..], out + [s[1]], c);
    } else {
      UnquoteKeeps(s[1..], out + [s[0]], c);
    }
  }

  lemma ValueIsOneLine(text: string)
    requires NoNewline(text) && ParseValue(text).Some? && ParseValue(text).value.Str?
    ensures NoNewline(ParseValue(text).value.text)
  {
    hide TrimStart, TrimEnd, Unquote, ParseI64, RemoveUnderscores;
    var cut := text[..Find(text, '#')];
    TrimKeeps(cut, '\n');
    TrimKeeps(TrimStart(cut), '\n');
    var s := Significant(text);
    assert NoNewline(s);
    if '\n' in ParseValue(text).value.text {
      UnquoteKeeps(s[1..], "", '\n');
    }
  }

  predicate OneLinePairs(kv: Pairs) {
    forall k :: 0 <= k < |kv| ==> kv[k].1.Str? ==> NoNewline(kv[k].1.text)
  }

  lemma {:induction false} GetIsOneLine(kv: Pairs, key: string)
    requires OneLinePairs(kv)
    ensures NoNewlineIn(StrOf(Get(kv, key)))
  {
    if kv != [] {
      GetIsOneLine(kv[..|kv| - 1], key);
    }
  }

  lemma {:induction false} ComponentsAreOneLine(path: string)
    requires NoNewline(path)
    ensures forall k :: 0 <= k < |Components(path)| ==> NoNewline(Components(path)[k])
    decreases |path|
  {
    var i := Find(path, '/');
    if i < |path| {
      ComponentsAreOneLine(path[i + 1..]);
    }
  }

  lemma EntryIsOneLine(kv: Pairs, at: nat)
    requires OneLinePairs(kv) && FromPairs(kv, at).Ok?
    ensures OneLineStrings(FromPairs(kv, at).value)
  {
    GetIsOneLine(kv, "name");
    GetIsOneLine(kv, "path");
    GetIsOneLine(kv, "stop");
    GetIsOneLine(kv, "wine_boot");
    GetIsOneLine(kv, "note");
    ComponentsAreOneLine(WantStr(kv, "path", at).value);
    hide Get, AsU64, Components, NoNewline, OneLinePairs;
  }

  ghost predicate CleanState(st: Parsing) {
    WholeLines(st.header) && HeaderOk(st.header) &&
    (forall k :: 0 <= k < |st.entries| ==> OneLineStrings(st.entries[k])) &&
    (st.cur.Some? ==> OneLinePairs(st.cur.value))
  }

  /** A carriage return that `lines` takes away is one that `trim` takes away too. */
  lemma {:induction false} TrimChopCr(l: string)
    ensures Trim(ChopCr(l)) == Trim(l)
  {
    if l == "" || l[|l| - 1] != '\r' {
    } else if |l| == 1 {
      assert l[1..] == "" && l[..0] == "";
    } else if IsWhitespace(l[0]) {
      TrimChopCr(l[1..]);
      assert l[1..][..|l| - 2] == ChopCr(l)[1..];
    } else {
      assert ChopCr(l)[0] == l[0];
      assert TrimEnd(l) == TrimEnd(l[..|l| - 1]);
    }
  }

  lemma HeaderGrows(header: string, raw: string)
    requires WholeLines(header) && HeaderOk(header) && NoNewline(raw) && Skipped(Trim(raw))
    ensures WholeLines(header + raw + "\n") && HeaderOk(header + raw + "\n")
  {
    hide Trim;
    var line := raw + "\n";
    assert header + raw + "\n" == header + line;
    assert line[..|raw|] == raw;
    LinesAcross(header, line);
    FindIsFirst(line, '\n', |raw|);
    assert line[|raw| + 1..] == "";
    assert Lines(line) == [ChopCr(raw)];
    TrimChopCr(raw);
    assert Terminated(header + line) == header + line && Terminated(header) == header;
  }

  lemma CloseIsClean(st: Parsing, at: nat)
    requires CleanState(st) && Close(st, at).Ok?
    ensures forall k :: 0 <= k < |Close(st, at).value| ==> OneLineStrings(Close(st, at).value[k])
  {
    hide OneLineStrings, FromPairs, OneLinePairs;
    if st.cur.Some? {
      EntryIsOneLine(st.cur.value, at);
    }
  }

  lemma StepIsClean(st: Parsing, raw: string, at: nat)
    requires CleanState(st) && NoNewline(raw) && Step(st, raw, at).Ok?
    ensures CleanState(Step(st, raw, at).value)
  {
    hide OneLineStrings, FromPairs, ParseValue, HeaderOk, WholeLines;
    var line := Trim(raw);
    TrimKeeps(raw, '\n');
    TrimKeeps(TrimStart(raw), '\n');
    hide TrimStart, TrimEnd;
    if line == "[[binary]]" {
      CloseIsClean(st, at);
    } else if Skipped(line) {
      HeaderGrows(st.header, raw);
    } else {
      var v := line[Find(line, '=') + 1..];
      TrimKeeps(v, '\n');
      TrimKeeps(TrimStart(v), '\n');
      if ParseValue(Trim(v)).value.Str? {
        ValueIsOneLine(Trim(v));
      }
    }
  }

  lemma {:induction false} RunIsClean(st: Parsing, lines: seq<string>, at: nat)
    requires CleanState(st) && (forall l :: l in lines ==> NoNewline(l)) && Run(st, lines, at).Ok?
    ensures CleanState(Run(st, lines, at).value)
    decreases |lines|
  {
    hide Step, CleanState;
    if lines != [] {
      StepIsClean(st, lines[0], at);
      RunIsClean(Step(st, lines[0], at).value, lines[1..], at + 1);
    }
  }

  lemma {:induction false} BlankTailDrops(header: string)
    requires WholeLines(header) && HeaderOk(header)
    ensures WholeLines(DropBlankTail(header)) && HeaderOk(DropBlankTail(header))
    ensures !EndsBlank(DropBlankTail(header))
  {
    hide Trim;
    if EndsBlank(header) {
      var g := header[..|header| - 1];
      assert g[|g| - 1] == header[|header| - 2..][0];
      assert header == g + "\n";
      LinesAcross(g, "\n");
      assert Terminated(g) == g && Terminated(header) == header;
      BlankTailDrops(g);
    }
  }

  /** Whatever was read has a comment header, at least one entry, and one-line strings. */
  lemma ReadIsClean(text: string)
    requires ParseManifest(text).Ok?
    ensures var m := ParseManifest(text).value;
            HeaderOk(m.header) && m.entries != [] && forall e :: e in m.entries ==> OneLineStrings(e)
  {
    hide Step, OneLineStrings, FromPairs, Trim, OneLinePairs;
    var lines := Lines(text);
    forall l | l in lines
      ensures NoNewline(l)
    {
      LinesHaveNoNewline(text, l);
    }
    assert Lines("") == [] && Terminated("") == "";
    RunIsClean(START, lines, 1);
    var st := Run(START, lines, 1).value;
    CloseIsClean(st, |lines|);
    BlankTailDrops(st.header);
  }

  lemma ReadHeader(text: string)
    requires ParseManifest(text).Ok?
    ensures var h := ParseManifest(text).value.header;
            WholeLines(h) && !EndsBlank(h)
  {
    hide Step, OneLineStrings, FromPairs, Trim, OneLinePairs;
    var lines := Lines(text);
    forall l | l in lines
      ensures NoNewline(l)
    {
      LinesHaveNoNewline(text, l);
    }
    assert Lines("") == [] && Terminated("") == "";
    RunIsClean(START, lines, 1);
    BlankTailDrops(Run(START, lines, 1).value.header);
  }

  // ---- The law ----

  /** Reading a printed manifest gives the same entries back if and only if there is one to
      print and each of them is printable. */
  lemma RoundTripExactly(m: Contents)
    requires HeaderOk(m.header)
    ensures (exists h :: ParseManifest(ToToml(m)) == Ok(Contents(h, m.entries))) <==>
      m.entries != [] && forall e :: e in m.entries ==> Printable(e)
  {
    hide ParseManifest, ToToml, HeaderOk, OneLineStrings, CountsFit, Reread, Printable;
    var r := ParseManifest(ToToml(m));
    if r.Ok? {
      ReadIsClean(ToToml(m));
    }
    forall e: Entry
      ensures Printable(e) <==> OneLineStrings(e) && CountsFit(e) && Reread(e) == e
    {
      SurvivesExactly(e);
    }
    if m.entries != [] && forall e :: e in m.entries ==> OneLineStrings(e) {
      ReadPrinted(m);
      AllReread(m.entries);
      if AllCountsFit(m.entries) {
        assert r == Ok(Contents(Reheader(m.header), RereadAll(m.entries)));
      }
    }
  }

  /** An entry with a newline in its note, or a fault with an exit code, is not read back. */
  lemma EntriesAreLost(e: Entry, header: string)
    requires HeaderOk(header)
    ensures !exists h :: ParseManifest(ToToml(Contents(header, [e.(note := Some("a\nb"))]))) ==
                         Ok(Contents(h, [e.(note := Some("a\nb"))]))
    ensures !exists h :: ParseManifest(ToToml(Contents(header, [e.(outcome := Fault, exitCode := 3)]))) ==
                         Ok(Contents(h, [e.(outcome := Fault, exitCode := 3)]))
  {
    hide ParseManifest, ToToml, HeaderOk;
    var broken, faulted := e.(note := Some("a\nb")), e.(outcome := Fault, exitCode := 3);
    assert "a\nb"[1] == '\n';
    RoundTripExactly(Contents(header, [broken]));
    RoundTripExactly(Contents(header, [faulted]));
    assert broken in [broken] && faulted in [faulted];
  }

  lemma SurvivesExactly(e: Entry)
    ensures Printable(e) <==> OneLineStrings(e) && CountsFit(e) && Reread(e) == e
  {
  }

  lemma AllReread(es: seq<Entry>)
    ensures RereadAll(es) == es <==> forall e :: e in es ==> Reread(e) == e
  {
    RereadAt(es);
    if forall e :: e in es ==> Reread(e) == e {
      assert RereadAll(es) == es;
    }
    if RereadAll(es) == es {
      forall e | e in es
        ensures Reread(e) == e
      {
        var k :| 0 <= k < |es| && es[k] == e;
      }
    }
  }

  /** No line ends in a carriage return, which reading would take off. */
  predicate NoCrEnds(text: string) {
    forall i :: 0 <= i < |text| && text[i] == '\r' ==> i + 1 < |text| && text[i + 1] != '\n'
  }

  /** A manifest that was read and is printable comes back whole, its header included, if and
      only if no line of the header ends in a carriage return; an empty header gains a blank
      line. */
  lemma ReadPrintRead(text: string)
    requires ParseManifest(text).Ok?
    requires forall e :: e in ParseManifest(text).value.entries ==> Printable(e)
    ensures var m := ParseManifest(text).value;
            ParseManifest(ToToml(m)) == Ok(m.(header := if m.header == "" then "\n" else m.header)) <==> NoCrEnds(m.header)
  {
    hide ParseManifest, ToToml, HeaderOk, OneLineStrings, Reread, Printable, Reheader, NoCrEnds;
    var m := ParseManifest(text).value;
    ReadIsClean(text);
    forall e | e in m.entries
      ensures CountsFit(e) && Reread(e) == e
    {
      SurvivesExactly(e);
    }
    hide CountsFit;
    ReadPrinted(m);
    AllReread(m.entries);
    HeaderReadsBack(text);
  }

  /** Taking the carriage returns off line ends shortens the text, if there are any. */
  lemma {:induction false} WholeLinesReadBack(text: string)
    requires WholeLines(text)
    ensures WholeLines(Unlines(Lines(text))) && (text != "" ==> Unlines(Lines(text)) != "")
    ensures if NoCrEnds(text) then Unlines(Lines(text)) == text else |Unlines(Lines(text))| < |text|
    decreases |text|
  {
    hide NoCrEnds, Lines, Unlines, ChopCr;
    if text != "" {
      var i := Find(text, '\n');
      assert i < |text|;
      hide Find;
      var rest := text[i + 1..];
      assert rest != "" ==> rest[|text| - i - 2] == '\n';
      WholeLinesReadBack(rest);
      FirstLineCr(text, i);
      FirstLineRead(text, i);
      ChopCrExactly(text[..i]);
      assert text == text[..i] + "\n" + rest;
    } else {
      EmptyHasNoCr();
    }
  }

  lemma ChopCrExactly(line: string)
    ensures if line != "" && line[|line| - 1] == '\r' then |ChopCr(line)| == |line| - 1 else ChopCr(line) == line
  {
  }

  lemma FirstLineRead(text: string, i: nat)
    requires i == Find(text, '\n') < |text|
    ensures Unlines(Lines(text)) == ChopCr(text[..i]) + "\n" + Unlines(Lines(text[i + 1..]))
  {
    hide ChopCr, Find;
    var first, rest := ChopCr(text[..i]), Lines(text[i + 1..]);
    assert Lines(text) == [first] + rest;
    hide Lines;
    assert ([first] + rest)[1..] == rest;
  }

  lemma FirstLineCr(text: string, i: nat)
    requires i < |text| && text[i] == '\n' && forall k :: 0 <= k < i ==> text[k] != '\n'
    ensures NoCrEnds(text) <==> (i > 0 ==> text[i - 1] != '\r') && NoCrEnds(text[i + 1..])
  {
    var rest := text[i + 1..];
    if NoCrEnds(text) {
      assert forall k :: 0 <= k < |rest| ==> rest[k] == text[i + 1 + k];
    }
    if (i > 0 ==> text[i - 1] != '\r') && NoCrEnds(rest) {
      forall k | 0 <= k < |text| && text[k] == '\r'
        ensures k + 1 < |text| && text[k + 1] != '\n'
      {
        if k > i {
          assert rest[k - i - 1] == '\r';
        }
      }
    }
  }

  lemma HeaderReadsBack(text: string)
    requires ParseManifest(text).Ok?
    ensures var h := ParseManifest(text).value.header;
            Reheader(h) == (if h == "" then "\n" else h) <==> NoCrEnds(h)
  {
    hide Run, Lines, Unlines, Close, NoCrEnds;
    ReadHeader(text);
    var h := ParseManifest(text).value.header;
    hide ParseManifest;
    WholeLinesReadBack(h);
    EmptyHasNoCr();
    if h != "" {
      var again := Unlines(Lines(h)) + "\n";
      assert again[|again| - 2..] == "\n\n" && again[..|again| - 1] == Unlines(Lines(h));
      DropShrinks(Unlines(Lines(h)));
      if NoCrEnds(h) {
        assert DropBlankTail(h) == h;
      }
    }
  }

  lemma EmptyHasNoCr()
    ensures NoCrEnds("") && Unlines(Lines("")) == "" && DropBlankTail("\n") == "\n"
  {
  }

  lemma {:induction false} DropShrinks(text: string)
    ensures |DropBlankTail(text)| <= |text|
    decreases |text|
  {
    if EndsBlank(text) {
      DropShrinks(text[..|text| - 1]);
    }
  }
}
