/** The regression manifest: its text form, the printer and the line-by-line reader. */
module ManifestText {
  import opened Words
  import opened Text
  import opened TomlLite

  datatype Outcome = Exit | Fault | Budget {
    function AsStr(): string {
      match this
      case Exit => "exit"
      case Fault => "fault"
      case Budget => "budget"
    }
  }

  function ParseOutcome(s: string): Option<Outcome> {
    if s == "exit" then Some(Exit)
    else if s == "fault" then Some(Fault)
    else if s == "budget" then Some(Budget)
    else None
  }

  datatype Entry = Entry(
    name: string, path: string, outcome: Outcome, exitCode: i64, steps: u64, tolerance: u64,
    artifacts: Option<u64>, maxSteps: u64, rip: Option<u64>, stop: Option<string>, quick: bool,
    virtualClock: bool, jit: bool, debugIdle: bool, wineBoot: Option<string>, note: Option<string>)

  /** What a manifest file says. */
  datatype Contents = Contents(header: string, entries: seq<Entry>)

  datatype Rejection =
    | OnlyBinaryTables(line: nat)
    | ExpectedKeyValue(line: nat)
    | CannotParse(line: nat, text: string)
    | KeyOutsideTable(line: nat)
    | MustBeString(line: nat, key: string)
    | Missing(line: nat, key: string)
    | MissingOrInvalid(line: nat, key: string)
    | UnknownOutcome(name: string, text: string)
    | NoEntries

  datatype Result<+T> = Ok(value: T) | Err(error: Rejection)

  type Pairs = seq<(string, Value)>

  // ---- From pairs to an entry ----

  /** The slash-separated parts of a path that `Path::components` keeps. */
  function Components(path: string): (cs: seq<string>)
    decreases |path|
  {
    var i := Find(path, '/');
    var part := if path[..i] == "" || path[..i] == "." then [] else [path[..i]];
    if i == |path| then part else part + Components(path[i + 1..])
  }

  /** `Path::file_name` */
  function FileName(path: string): Option<string> {
    var cs := Components(path);
    if cs == [] || cs[|cs| - 1] == ".." then None else Some(cs[|cs| - 1])
  }

  function StrOf(v: Option<Value>): Option<string> {
    if v.Some? && v.value.Str? then Some(v.value.text) else None
  }

  function U64Of(v: Option<Value>): Option<u64> {
    if v.Some? then AsU64(v.value) else None
  }

  predicate IsTrue(v: Option<Value>) {
    v == Some(Bool(true))
  }

  function WantStr(kv: Pairs, key: string, at: nat): Result<string> {
    match Get(kv, key)
    case Some(Str(s)) => Ok(s)
    case Some(_) => Err(MustBeString(at, key))
    case None => Err(Missing(at, key))
  }

  function NameOf(kv: Pairs, path: string): string {
    match Get(kv, "name")
    case Some(Str(s)) => s
    case _ => match FileName(path) case Some(f) => f case None => path
  }

  function OrElse<T>(o: Option<T>, default: T): T {
    if o.Some? then o.value else default
  }

  /** `Entry::from_pairs` */
  function FromPairs(kv: Pairs, at: nat): Result<Entry> {
    match WantStr(kv, "path", at)
    case Err(e) => Err(e)
    case Ok(path) =>
      match WantStr(kv, "outcome", at)
      case Err(e) => Err(e)
      case Ok(text) =>
        match ParseOutcome(text)
        case None => Err(UnknownOutcome(NameOf(kv, path), text))
        case Some(outcome) =>
          match U64Of(Get(kv, "steps"))
          case None => Err(MissingOrInvalid(at, "steps"))
          case Some(steps) =>
            var code := Get(kv, "exit_code");
            Ok(Entry(
              NameOf(kv, path), path, outcome,
              if code.Some? && code.value.Int? then code.value.number else 0,
              steps,
              OrElse(U64Of(Get(kv, "tolerance")), 0),
              U64Of(Get(kv, "artifacts")),
              OrElse(U64Of(Get(kv, "max_steps")), 2_000_000_000),
              U64Of(Get(kv, "rip")),
              StrOf(Get(kv, "stop")),
              IsTrue(Get(kv, "quick")),
              IsTrue(Get(kv, "virtual_clock")),
              IsTrue(Get(kv, "jit")),
              IsTrue(Get(kv, "debug_idle")),
              StrOf(Get(kv, "wine_boot")),
              StrOf(Get(kv, "note"))))
  }

  // ---- Reading ----

  datatype Parsing = Parsing(header: string, entries: seq<Entry>, cur: Option<Pairs>, inHeader: bool)

  const START := Parsing("", [], None, true)

  /** The entries once the table being read is complete. */
  function Close(st: Parsing, at: nat): Result<seq<Entry>> {
    match st.cur
    case None => Ok(st.entries)
    case Some(kv) =>
      match FromPairs(kv, at)
      case Ok(e) => Ok(st.entries + [e])
      case Err(x) => Err(x)
  }

  predicate Skipped(line: string) {
    line == "" || line[0] == '#'
  }

  function Step(st: Parsing, raw: string, at: nat): Result<Parsing> {
    var line := Trim(raw);
    if line == "[[binary]]" then
      match Close(st, at)
      case Ok(entries) => Ok(Parsing(st.header, entries, Some([]), false))
      case Err(x) => Err(x)
    else if Skipped(line) then
      Ok(if st.inHeader then st.(header := st.header + raw + "\n") else st)
    else if line[0] == '[' then
      Err(OnlyBinaryTables(at))
    else
      var i := Find(line, '=');
      if i == |line| then Err(ExpectedKeyValue(at))
      else
        match ParseValue(Trim(line[i + 1..]))
        case None => Err(CannotParse(at, Trim(line[i + 1..])))
        case Some(v) =>
          match st.cur
          case None => Err(KeyOutsideTable(at))
          case Some(kv) => Ok(st.(cur := Some(kv + [(Trim(line[..i]), v)])))
  }

  function Run(st: Parsing, lines: seq<string>, at: nat): Result<Parsing>
    decreases |lines|
  {
    if lines == [] then Ok(st)
    else
      match Step(st, lines[0], at)
      case Err(x) => Err(x)
      case Ok(next) => Run(next, lines[1..], at + 1)
  }

  predicate EndsBlank(header: string) {
    |header| >= 2 && header[|header| - 2..] == "\n\n"
  }

  function DropBlankTail(header: string): string {
    if EndsBlank(header) then DropBlankTail(header[..|header| - 1]) else header
  }

  function Finish(st: Parsing, lines: nat): Result<Contents> {
    match Close(st, lines)
    case Err(x) => Err(x)
    case Ok(entries) => if entries == [] then Err(NoEntries) else Ok(Contents(DropBlankTail(st.header), entries))
  }

  /** `Manifest::parse` */
  function ParseManifest(text: string): Result<Contents> {
    match Run(START, Lines(text), 1)
    case Err(x) => Err(x)
    case Ok(st) => Finish(st, |Lines(text)|)
  }

  method ReadManifest(text: string) returns (r: Result<Contents>)
    ensures r == ParseManifest(text)
  {
    var lines := Lines(text);
    var st := START;
    for i := 0 to |lines|
      invariant Run(START, lines, 1) == Run(st, lines[i..], i + 1)
    {
      assert lines[i..][1..] == lines[i + 1..];
      match Step(st, lines[i], i + 1)
      case Err(x) => return Err(x);
      case Ok(next) => st := next;
    }
    return Finish(st, |lines|);
  }

  // ---- Printing ----

  const FIELDS: nat := 16

  /** The keys in printing order. */
  function Key(i: nat): string
    requires i < FIELDS
  {
    match i
    case 0 => "name"
    case 1 => "path"
    case 2 => "note"
    case 3 => "quick"
    case 4 => "virtual_clock"
    case 5 => "jit"
    case 6 => "debug_idle"
    case 7 => "wine_boot"
    case 8 => "max_steps"
    case 9 => "outcome"
    case 10 => "exit_code"
    case 11 => "steps"
    case 12 => "tolerance"
    case 13 => "artifacts"
    case 14 => "rip"
    case _ => "stop"
  }

  function FlagText(b: bool): string {
    if b then "true" else "false"
  }

  function Quoted(o: Option<string>): Option<string> {
    if o.Some? then Some(Quote(o.value)) else None
  }

  /** The value printed under a key, None where the printer writes no such line. */
  function FieldText(e: Entry, i: nat): Option<string>
    requires i < FIELDS
  {
    match i
    case 0 => Some(Quote(e.name))
    case 1 => Some(Quote(e.path))
    case 2 => Quoted(e.note)
    case 3 => Some(FlagText(e.quick))
    case 4 => if e.virtualClock then Some(FlagText(true)) else None
    case 5 => if e.jit then Some(FlagText(true)) else None
    case 6 => if e.debugIdle then Some(FlagText(true)) else None
    case 7 => Quoted(e.wineBoot)
    case 8 => Some(Decimal(e.maxSteps))
    case 9 => Some(Quote(e.outcome.AsStr()))
    case 10 => if e.outcome == Exit then Some(Decimal(e.exitCode)) else None
    case 11 => Some(Decimal(e.steps))
    case 12 => Some(Decimal(e.tolerance))
    case 13 => if e.artifacts.Some? then Some(Decimal(e.artifacts.value)) else None
    case 14 => if e.rip.Some? then Some(Quote("0x" + Digits(e.rip.value, 16))) else None
    case _ => Quoted(e.stop)
  }

  /** Keys are padded to ten columns and always followed by a blank. */
  function Padding(key: string): nat {
    if |key| < 10 then 10 - |key| else 1
  }

  function FieldLine(key: string, value: string): string {
    key + Spaces(Padding(key)) + "= " + value
  }

  /** The lines of the first n fields. */
  function FieldLines(e: Entry, n: nat): seq<string>
    requires n <= FIELDS
  {
    if n == 0 then []
    else
      FieldLines(e, n - 1) +
      match FieldText(e, n - 1) case Some(v) => [FieldLine(Key(n - 1), v)] case None => []
  }

  function EntryLines(e: Entry): seq<string> {
    ["", "[[binary]]"] + FieldLines(e, FIELDS)
  }

  function BodyLines(es: seq<Entry>): seq<string> {
    if es == [] then [] else EntryLines(es[0]) + BodyLines(es[1..])
  }

  /** A header that does not end in a newline gets one. */
  function Terminated(header: string): string {
    if header != "" && header[|header| - 1] != '\n' then header + "\n" else header
  }

  /** `Manifest::to_toml` */
  function ToToml(m: Contents): string {
    Terminated(m.header) + Unlines(BodyLines(m.entries))
  }

  method WriteField(o: string, key: string, value: Option<string>) returns (r: string)
    ensures r == o + if value.Some? then FieldLine(key, value.value) + "\n" else ""
  {
    r := o;
    if value.Some? {
      r := r + key + Spaces(Padding(key)) + "= " + value.value + "\n";
    }
  }

  method WriteEntry(start: string, e: Entry) returns (o: string)
    ensures o == start + "\n[[binary]]\n" + Unlines(FieldLines(e, FIELDS))
  {
    hide FieldText, Key, FieldLine;
    o := start + "\n[[binary]]\n";
    for i := 0 to FIELDS
      invariant o == start + "\n[[binary]]\n" + Unlines(FieldLines(e, i))
    {
      UnlinesOfNext(e, i);
      o := WriteField(o, Key(i), FieldText(e, i));
    }
  }

  method WriteManifest(m: Contents) returns (o: string)
    ensures o == ToToml(m)
  {
    hide FieldLines, EntryLines, BodyLines, Unlines;
    EmptyBody();
    o := m.header;
    if o != "" && o[|o| - 1] != '\n' {
      o := o + "\n";
    }
    for k := 0 to |m.entries|
      invariant o == Terminated(m.header) + Unlines(BodyLines(m.entries[..k]))
    {
      UnlinesOfEntry(m.entries, k);
      o := WriteEntry(o, m.entries[k]);
    }
    assert m.entries[..|m.entries|] == m.entries;
  }

  lemma EmptyBody()
    ensures BodyLines([]) == [] && Unlines([]) == ""
  {
  }

  lemma UnlinesOfNext(e: Entry, i: nat)
    requires i < FIELDS
    ensures Unlines(FieldLines(e, i + 1)) == Unlines(FieldLines(e, i)) +
      match FieldText(e, i) case Some(v) => FieldLine(Key(i), v) + "\n" case None => ""
  {
    match FieldText(e, i)
    case Some(v) =>
      UnlinesAcross(FieldLines(e, i), [FieldLine(Key(i), v)]);
      assert Unlines([]) == "";
    case None =>
      assert FieldLines(e, i + 1) == FieldLines(e, i);
  }

  lemma UnlinesOfEntry(es: seq<Entry>, k: nat)
    requires k < |es|
    ensures Unlines(BodyLines(es[..k + 1])) ==
      Unlines(BodyLines(es[..k])) + "\n[[binary]]\n" + Unlines(FieldLines(es[k], FIELDS))
  {
    BodyAcross(es[..k], [es[k]]);
    assert es[..k + 1] == es[..k] + [es[k]];
    assert BodyLines([es[k]]) == EntryLines(es[k]);
    UnlinesAcross(BodyLines(es[..k]), EntryLines(es[k]));
    UnlinesAcross(["", "[[binary]]"], FieldLines(es[k], FIELDS));
    assert Unlines(["", "[[binary]]"]) == "\n[[binary]]\n" by {
      assert ["", "[[binary]]"][1..] == ["[[binary]]"];
    }
  }

  lemma {:induction false} BodyAcross(a: seq<Entry>, b: seq<Entry>)
    ensures BodyLines(a + b) == BodyLines(a) + BodyLines(b)
  {
    if a == [] {
      assert a + b == b;
    } else {
      assert (a + b)[1..] == a[1..] + b;
      BodyAcross(a[1..], b);
    }
  }
}
