/** Printing a manifest and reading it back: exactly when the entries survive. */
module ManifestRoundTrip {
  import opened Words
  import opened Text
  import opened TomlLite
  import opened ManifestText

  // ---- One line ----

  predicate KeyChar(c: char) {
    'a' <= c <= 'z' || c == '_'
  }

  predicate KeyText(s: string) {
    s != "" && forall k :: 0 <= k < |s| ==> KeyChar(s[k])
  }

  lemma KeysAreKeyText(i: nat)
    requires i < FIELDS
    ensures KeyText(Key(i))
  {
    var key := Key(i);
    forall k | 0 <= k < |key|
      ensures KeyChar(key[k])
    {
    }
  }

  /** The position of a key in printing order, read off its letters. */
  function KeyIndex(key: string): int {
    if |key| < 2 then -1
    else if |key| == 3 then if key[0] == 'j' then 5 else 14
    else if |key| == 4 then if key[0] == 'n' then (if key[1] == 'a' then 0 else 2) else if key[0] == 'p' then 1 else 15
    else if |key| == 5 then if key[0] == 'q' then 3 else 11
    else if |key| == 7 then 9
    else if |key| == 10 then 6
    else if |key| == 13 then 4
    else if key[0] == 'w' then 7
    else if key[0] == 'm' then 8
    else if key[0] == 'e' then 10
    else if key[0] == 't' then 12
    else 13
  }

  lemma KeysDiffer(i: nat, j: nat)
    requires i < FIELDS && j < FIELDS && i != j
    ensures Key(i) != Key(j)
  {
    KeyIndexOfKey(i);
    KeyIndexOfKey(j);
  }

  lemma KeyIndexOfKey(i: nat)
    requires i < FIELDS
    ensures KeyIndex(Key(i)) == i
  {
  }

  lemma FieldLineParts(key: string, v: string)
    requires KeyText(key) && Tight(v)
    ensures var line := FieldLine(key, v); var i := |key| + Padding(key);
            Tight(line) && Find(line, '=') == i < |line| && line[0] == key[0] &&
            line[..i] == key + Spaces(Padding(key)) && line[i + 1..] == " " + v
  {
    var i := |key| + Padding(key);
    var head := key + Spaces(Padding(key));
    var line := FieldLine(key, v);
    assert KeyChar(key[0]);
    assert line == head + "=" + " " + v;
    assert line[..i] == head && line[i + 1..] == " " + v;
    forall k | 0 <= k < i
      ensures head[k] != '='
    {
      if k < |key| {
        assert KeyChar(key[k]);
      } else {
        assert head[k] in Spaces(Padding(key));
      }
    }
    FindIsFirst(line, '=', i);
  }

  /** Reading a printed line adds its key and value to the table. */
  lemma StepField(st: Parsing, key: string, v: string, at: nat)
    requires KeyText(key) && Tight(v) && st.cur.Some?
    ensures ParseValue(v).Some? ==>
      Step(st, FieldLine(key, v), at) == Ok(st.(cur := Some(st.cur.value + [(key, ParseValue(v).value)])))
    ensures ParseValue(v).None? ==> Step(st, FieldLine(key, v), at).Err?
  {
    hide ParseValue, FieldLine, Find, Trim, Spaces;
    FieldLineParts(key, v);
    var line := FieldLine(key, v);
    assert KeyChar(key[0]) && KeyChar(key[|key| - 1]);
    TrimTight(line);
    TrimTight(v);
    TrimPadding(key, Padding(key));
    assert line[0] != "[[binary]]"[0];
  }

  // ---- One field ----

  lemma QuoteIsTight(s: string)
    ensures Tight(Quote(s)) && ParseValue(Quote(s)) == Some(Str(s))
  {
    QuoteRoundTrip(s, "");
    assert Quote(s) + "" == Quote(s);
  }

  lemma DecimalIsTight(n: int)
    ensures Tight(Decimal(n)) && ParseValue(Decimal(n)) == if FitsI64(n) then Some(Int(n)) else None
  {
    DecimalIsBare(n);
    BareIsRead(Decimal(n));
    IntRoundTrip(n);
  }

  lemma FlagIsTight(b: bool)
    ensures Tight(FlagText(b)) && ParseValue(FlagText(b)) == Some(Bool(b))
  {
    BareIsRead(FlagText(b));
  }

  function OptionalStr(o: Option<string>): Option<Value> {
    if o.Some? then Some(Str(o.value)) else None
  }

  function IntIfFits(n: int): Option<Value> {
    if FitsI64(n) then Some(Int(n)) else None
  }

  /** What a printed field is read as; None where there is no line or no readable value. */
  function FieldValue(e: Entry, i: nat): Option<Value>
    requires i < FIELDS
  {
    match i
    case 0 => Some(Str(e.name))
    case 1 => Some(Str(e.path))
    case 2 => OptionalStr(e.note)
    case 3 => Some(Bool(e.quick))
    case 4 => if e.virtualClock then Some(Bool(true)) else None
    case 5 => if e.jit then Some(Bool(true)) else None
    case 6 => if e.debugIdle then Some(Bool(true)) else None
    case 7 => OptionalStr(e.wineBoot)
    case 8 => IntIfFits(e.maxSteps)
    case 9 => Some(Str(e.outcome.AsStr()))
    case 10 => if e.outcome == Exit then Some(Int(e.exitCode)) else None
    case 11 => IntIfFits(e.steps)
    case 12 => IntIfFits(e.tolerance)
    case 13 => if e.artifacts.Some? then IntIfFits(e.artifacts.value) else None
    case 14 => if e.rip.Some? then Some(Str("0x" + Digits(e.rip.value, 16))) else None
    case _ => OptionalStr(e.stop)
  }

  /** The counts that the printer writes in decimal fit a signed 64-bit integer. */
  predicate CountsFit(e: Entry) {
    FitsI64(e.maxSteps) && FitsI64(e.steps) && FitsI64(e.tolerance) &&
    (e.artifacts.Some? ==> FitsI64(e.artifacts.value))
  }

  predicate IsCount(i: nat) {
    i == 8 || i == 11 || i == 12 || i == 13
  }

  lemma FieldReads(e: Entry, i: nat)
    requires i < FIELDS
    ensures match FieldText(e, i)
            case Some(t) => Tight(t) && ParseValue(t) == FieldValue(e, i)
            case None => FieldValue(e, i).None?
    ensures FieldText(e, i).Some? && FieldValue(e, i).None? ==> IsCount(i) && !CountsFit(e)
  {
    hide ParseValue, Decimal, Quote, Tight, Digits;
    match i {
      case 0 => QuoteIsTight(e.name);
      case 1 => QuoteIsTight(e.path);
      case 2 => if e.note.Some? { QuoteIsTight(e.note.value); }
      case 3 => FlagIsTight(e.quick);
      case 4 => FlagIsTight(true);
      case 5 => FlagIsTight(true);
      case 6 => FlagIsTight(true);
      case 7 => if e.wineBoot.Some? { QuoteIsTight(e.wineBoot.value); }
      case 8 => DecimalIsTight(e.maxSteps);
      case 9 => QuoteIsTight(e.outcome.AsStr());
      case 10 => DecimalIsTight(e.exitCode);
      case 11 => DecimalIsTight(e.steps);
      case 12 => DecimalIsTight(e.tolerance);
      case 13 => if e.artifacts.Some? { DecimalIsTight(e.artifacts.value); }
      case 14 => if e.rip.Some? { QuoteIsTight("0x" + Digits(e.rip.value, 16)); }
      case _ => if e.stop.Some? { QuoteIsTight(e.stop.value); }
    }
  }

  // ---- One table ----

  /** The pairs read from the first n fields. */
  function PairsOf(e: Entry, n: nat): Pairs
    requires n <= FIELDS
  {
    if n == 0 then []
    else
      PairsOf(e, n - 1) + match FieldValue(e, n - 1) case Some(v) => [(Key(n - 1), v)] case None => []
  }

  /** Every printed field among the first n has a readable value. */
  predicate Readable(e: Entry, n: nat)
    requires n <= FIELDS
  {
    forall i :: 0 <= i < n ==> FieldText(e, i).Some? ==> FieldValue(e, i).Some?
  }

  lemma {:induction false} RunAcross(st: Parsing, a: seq<string>, b: seq<string>, at: nat)
    ensures Run(st, a + b, at) ==
      match Run(st, a, at) case Ok(mid) => Run(mid, b, at + |a|) case Err(x) => Err(x)
    decreases |a|
  {
    hide Step;
    if a == [] {
      assert a + b == b;
    } else {
      assert (a + b)[1..] == a[1..] + b;
      match Step(st, a[0], at)
      case Err(_) =>
      case Ok(next) => RunAcross(next, a[1..], b, at + 1);
    }
  }

  lemma RunOne(st: Parsing, l: string, at: nat)
    ensures Run(st, [l], at) == Step(st, l, at)
  {
    hide Step;
    assert [l][1..] == [];
  }

  lemma {:induction false} RunFields(st: Parsing, e: Entry, n: nat, at: nat)
    requires n <= FIELDS && st.cur.Some?
    ensures Readable(e, n) ==>
      Run(st, FieldLines(e, n), at) == Ok(st.(cur := Some(st.cur.value + PairsOf(e, n))))
    ensures !Readable(e, n) ==> Run(st, FieldLines(e, n), at).Err?
  {
    hide Step, FieldText, FieldValue, Key, FieldLine, ParseValue, Tight;
    if n == 0 {
      assert st.cur.value + [] == st.cur.value;
    } else {
      RunFields(st, e, n - 1, at);
      FieldReads(e, n - 1);
      KeysAreKeyText(n - 1);
      var before := FieldLines(e, n - 1);
      match FieldText(e, n - 1)
      case None =>
        assert FieldLines(e, n) == before && PairsOf(e, n) == PairsOf(e, n - 1);
      case Some(t) =>
        var line := FieldLine(Key(n - 1), t);
        RunAcross(st, before, [line], at);
        if Readable(e, n - 1) {
          var mid := st.(cur := Some(st.cur.value + PairsOf(e, n - 1)));
          StepField(mid, Key(n - 1), t, at + |before|);
          RunOne(mid, line, at + |before|);
          if Readable(e, n) {
            var v := FieldValue(e, n - 1).value;
            assert st.cur.value + PairsOf(e, n - 1) + [(Key(n - 1), v)] ==
                   st.cur.value + (PairsOf(e, n - 1) + [(Key(n - 1), v)]);
          }
        }
    }
  }

  /** Keys are distinct, so each is looked up as what its own line said. */
  lemma {:induction false} GetPair(e: Entry, n: nat, i: nat)
    requires i < FIELDS && n <= FIELDS
    ensures Get(PairsOf(e, n), Key(i)) == if i < n then FieldValue(e, i) else None
  {
    hide FieldValue, Key;
    if n > 0 {
      GetPair(e, n - 1, i);
      if FieldValue(e, n - 1).Some? {
        assert PairsOf(e, n)[..|PairsOf(e, n)| - 1] == PairsOf(e, n - 1);
        if n - 1 != i {
          KeysDiffer(n - 1, i);
        }
      } else {
        assert PairsOf(e, n) == PairsOf(e, n - 1);
      }
    }
  }

  /** The entry as it comes back when its counts fit. */
  function Reread(e: Entry): Entry {
    e.(exitCode := if e.outcome == Exit then e.exitCode else 0,
       rip := if e.rip.Some? && FitsI64(e.rip.value) then e.rip else None)
  }

  lemma CountReads(n: u64)
    requires FitsI64(n)
    ensures U64Of(IntIfFits(n)) == Some(n)
  {
  }

  lemma PairsReads(kv: Pairs, e: Entry)
    requires kv == PairsOf(e, FIELDS)
    ensures Get(kv, "name") == Some(Str(e.name)) && Get(kv, "path") == Some(Str(e.path))
    ensures Get(kv, "note") == OptionalStr(e.note) && Get(kv, "quick") == Some(Bool(e.quick))
    ensures Get(kv, "virtual_clock") == (if e.virtualClock then Some(Bool(true)) else None)
    ensures Get(kv, "jit") == (if e.jit then Some(Bool(true)) else None)
    ensures Get(kv, "debug_idle") == (if e.debugIdle then Some(Bool(true)) else None)
    ensures Get(kv, "wine_boot") == OptionalStr(e.wineBoot) && Get(kv, "max_steps") == IntIfFits(e.maxSteps)
    ensures Get(kv, "outcome") == Some(Str(e.outcome.AsStr()))
    ensures Get(kv, "exit_code") == (if e.outcome == Exit then Some(Int(e.exitCode)) else None)
    ensures Get(kv, "steps") == IntIfFits(e.steps) && Get(kv, "tolerance") == IntIfFits(e.tolerance)
    ensures Get(kv, "artifacts") == (if e.artifacts.Some? then IntIfFits(e.artifacts.value) else None)
    ensures Get(kv, "rip") == (if e.rip.Some? then Some(Str("0x" + Digits(e.rip.value, 16))) else None)
    ensures Get(kv, "stop") == OptionalStr(e.stop)
  {
    hide PairsOf, Get, Digits;
    GetPair(e, FIELDS, 0);
    GetPair(e, FIELDS, 1);
    GetPair(e, FIELDS, 2);
    GetPair(e, FIELDS, 3);
    GetPair(e, FIELDS, 4);
    GetPair(e, FIELDS, 5);
    GetPair(e, FIELDS, 6);
    GetPair(e, FIELDS, 7);
    GetPair(e, FIELDS, 8);
    GetPair(e, FIELDS, 9);
    GetPair(e, FIELDS, 10);
    GetPair(e, FIELDS, 11);
    GetPair(e, FIELDS, 12);
    GetPair(e, FIELDS, 13);
    GetPair(e, FIELDS, 14);
    GetPair(e, FIELDS, 15);
  }

  lemma FromPairsReads(e: Entry, at: nat)
    requires CountsFit(e)
    ensures FromPairs(PairsOf(e, FIELDS), at) == Ok(Reread(e))
  {
    var kv := PairsOf(e, FIELDS);
    PairsReads(kv, e);
    hide PairsOf, Get, Digits, ParseValue, FileName, AsU64, IntIfFits;
    CountReads(e.maxSteps);
    CountReads(e.steps);
    CountReads(e.tolerance);
    if e.artifacts.Some? {
      CountReads(e.artifacts.value);
    }
    if e.rip.Some? {
      AddressRoundTrip(e.rip.value);
    }
    OutcomeReads(e.outcome);
  }

  lemma OutcomeReads(o: Outcome)
    ensures ParseOutcome(o.AsStr()) == Some(o)
  {
  }
}
