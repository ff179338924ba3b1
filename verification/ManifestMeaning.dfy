/** What the reader makes of texts that the printer does not write: blanks anywhere, comments
    behind values, digits with underscores, missing and repeated keys, and what is refused. */
module ManifestMeaning {
  import opened Words
  import opened Text
  import opened TomlLite
  import opened ManifestText

  // ---- Trimming ----

  predicate Blank(s: string) {
    forall k :: 0 <= k < |s| ==> IsWhitespace(s[k])
  }

  /** Among the ASCII characters the blanks are the space and the control characters from tab
      to carriage return. */
  lemma AsciiBlanks(c: char)
    requires c < 128 as char
    ensures IsWhitespace(c) <==> c == ' ' || c == '\t' || c == '\n' || c == '\r' || c == 11 as char || c == 12 as char
  {
  }

  lemma {:induction false} TrimStartPast(a: string, s: string)
    requires Blank(a) && (s == "" || !IsWhitespace(s[0]))
    ensures TrimStart(a + s) == s
  {
    hide IsWhitespace;
    if a == "" {
      assert a + s == s;
    } else {
      assert (a + s)[0] == a[0] && (a + s)[1..] == a[1..] + s;
      TrimStartPast(a[1..], s);
    }
  }

  lemma {:induction false} TrimEndBefore(s: string, b: string)
    requires Blank(b) && (s == "" || !IsWhitespace(s[|s| - 1]))
    ensures TrimEnd(s + b) == s
  {
    hide IsWhitespace;
    if b == "" {
      assert s + b == s;
    } else {
      var n := |b| - 1;
      assert (s + b)[|s + b| - 1] == b[n] && (s + b)[..|s + b| - 1] == s + b[..n];
      TrimEndBefore(s, b[..n]);
    }
  }

  /** Blanks on both sides go, and nothing else. */
  lemma TrimTakesBlanks(a: string, s: string, b: string)
    requires Blank(a) && Blank(b) && (s == "" || Tight(s))
    ensures Trim(a + s + b) == s
  {
    hide IsWhitespace;
    if s == "" {
      assert a + s + b == (a + b) + "";
      TrimStartPast(a + b, "");
      assert TrimEnd("") == "";
    } else {
      assert a + s + b == a + (s + b);
      TrimStartPast(a, s + b);
      TrimEndBefore(s, b);
    }
  }

  // ---- Values ----

  /** The words true and false; a quoted one is a string. */
  lemma FlagsRead()
    ensures ParseValue("true") == Some(Bool(true)) && ParseValue("false") == Some(Bool(false))
  {
    BareReads("true");
    BareReads("false");
  }

  lemma BareReads(s: string)
    requires s != "" && forall k :: 0 <= k < |s| ==> BareChar(s[k])
    ensures ParseValue(s) == ParseBare(s)
  {
    BareIsRead(s);
  }

  /** A comment behind a value that is not quoted, and the blanks before it, do not matter. */
  lemma CommentIsCut(s: string, pad: string, comment: string)
    requires Bare(s) && Blank(pad) && '#' !in pad
    ensures ParseValue(s + pad + "#" + comment) == ParseValue(s)
  {
    hide ParseBare, IsWhitespace, Trim, Unquote;
    var text := s + pad + "#" + comment;
    BareIsTight(s);
    BareHasNoHash(s);
    assert text[0] == s[0];
    forall k | 0 <= k < |s + pad|
      ensures text[k] != '#'
    {
      if k < |s| {
        assert text[k] == s[k] && BareChar(s[k]);
      } else {
        assert text[k] == pad[k - |s|] && pad[k - |s|] in pad;
      }
    }
    assert text[|s + pad|] == '#';
    FindAt(text, |s + pad|);
    assert text[..|s + pad|] == "" + s + pad;
    TrimTakesBlanks("", s, pad);
    assert s[..|s|] == s;
  }

  lemma FindAt(text: string, i: nat)
    requires i < |text| && text[i] == '#' && forall k :: 0 <= k < i ==> text[k] != '#'
    ensures Find(text, '#') == i
  {
  }

  /** Underscores among digits do not matter. */
  lemma {:induction false} UnderscoresGo(a: string, b: string)
    ensures RemoveUnderscores(a + "_" + b) == RemoveUnderscores(a + b)
  {
    if a == "" {
      assert a + "_" + b == "_" + b && ("_" + b)[1..] == b && a + b == b;
    } else {
      assert (a + "_" + b)[1..] == a[1..] + "_" + b && (a + b)[1..] == a[1..] + b;
      UnderscoresGo(a[1..], b);
    }
  }

  lemma UnderscoresDoNotMatter(a: string, b: string)
    requires a + b != "true" && a + b != "false" && a + "_" + b != "true" && a + "_" + b != "false"
    ensures ParseBare(a + "_" + b) == ParseBare(a + b)
  {
    hide ParseI64;
    UnderscoresGo(a, b);
    hide RemoveUnderscores;
  }

  /** Hexadecimal digits of either case; decimal ones are the ten. */
  lemma DigitsOfEitherCase(i: nat)
    requires i < 6
    ensures DigitOf('a' + i as char, 16) == Some(10 + i) && DigitOf('A' + i as char, 16) == Some(10 + i)
    ensures DigitOf('a' + i as char, 10) == None && DigitOf('A' + i as char, 10) == None
    ensures DigitOf('g', 16) == None && DigitOf('G', 16) == None && DigitOf('@', 16) == None && DigitOf('`', 16) == None
    ensures DigitOf('/', 16) == None && DigitOf(':', 16) == None
  {
  }

  /** A sign may stand before the digits, either one; a sign alone is no number. */
  lemma SignsRead(digits: string, radix: Radix)
    requires digits != "" && digits[0] != '-' && digits[0] != '+'
    ensures ParseI64("+" + digits, radix) == ParseI64(digits, radix)
    ensures ParseI64("-" + digits, radix) ==
      match ParseDigits(digits, radix) case None => None case Some(v) => if v <= 0x8000_0000_0000_0000 then Some(0 - v) else None
    ensures ParseI64("+", radix) == None && ParseI64("-", radix) == None && ParseI64("", radix) == None
  {
    hide ParseDigits;
    assert ("+" + digits)[1..] == digits && ("-" + digits)[1..] == digits;
  }

  /** A negative number read as a count or an address wraps modulo 2^64; a flag is none. */
  lemma CountsWrap(n: i64, b: bool)
    ensures AsU64(Int(n)) == Some(if n < 0 then n + 0x1_0000_0000_0000_0000 else n) && AsU64(Bool(b)) == None
  {
  }

  // ---- Pairs ----

  /** The last value under a key counts. */
  lemma LastValueCounts(kv: Pairs, key: string, v: Value, other: string)
    ensures Get(kv + [(key, v)], key) == Some(v)
    ensures other != key ==> Get(kv + [(key, v)], other) == Get(kv, other)
    ensures Get([], key) == None
  {
    assert (kv + [(key, v)])[..|kv|] == kv;
  }

  /** What is asked of a table: a path and an outcome that are strings, an outcome that is known,
      and a step count; the first that is not so is the error. */
  lemma TableExactly(kv: Pairs, at: nat)
    ensures var path, outcome, steps := Get(kv, "path"), Get(kv, "outcome"), Get(kv, "steps");
            var r := FromPairs(kv, at);
            if path == None then r == Err(Missing(at, "path"))
            else if !path.value.Str? then r == Err(MustBeString(at, "path"))
            else if outcome == None then r == Err(Missing(at, "outcome"))
            else if !outcome.value.Str? then r == Err(MustBeString(at, "outcome"))
            else if outcome.value.text !in ["exit", "fault", "budget"] then r.Err? && r.error.UnknownOutcome?
            else if steps == None || AsU64(steps.value) == None then r == Err(MissingOrInvalid(at, "steps"))
            else r.Ok? && r.value.path == path.value.text && Some(r.value.steps) == AsU64(steps.value) &&
                 r.value.outcome == if outcome.value.text == "exit" then Exit else if outcome.value.text == "fault" then Fault else Budget
  {
    hide Get, AsU64, NameOf;
  }

  /** What a missing key is read as: no artifacts, address, reason, note or boot mode, exit code
      and tolerance zero, two thousand million steps at most, every flag off, and for a name the
      last part of the path. */
  lemma MissingKeys(kv: Pairs, at: nat)
    requires FromPairs(kv, at).Ok?
    ensures var e := FromPairs(kv, at).value;
            (Get(kv, "exit_code") == None ==> e.exitCode == 0) && (Get(kv, "tolerance") == None ==> e.tolerance == 0) &&
            (Get(kv, "max_steps") == None ==> e.maxSteps == 2_000_000_000) &&
            (Get(kv, "artifacts") == None ==> e.artifacts == None) && (Get(kv, "rip") == None ==> e.rip == None) &&
            (Get(kv, "stop") == None ==> e.stop == None) && (Get(kv, "note") == None ==> e.note == None) &&
            (Get(kv, "wine_boot") == None ==> e.wineBoot == None) &&
            (Get(kv, "name") == None ==> e.name == NameOf([], e.path))
    ensures var e := FromPairs(kv, at).value;
            (e.quick <==> Get(kv, "quick") == Some(Bool(true))) && (e.jit <==> Get(kv, "jit") == Some(Bool(true))) &&
            (e.virtualClock <==> Get(kv, "virtual_clock") == Some(Bool(true))) &&
            (e.debugIdle <==> Get(kv, "debug_idle") == Some(Bool(true)))
  {
    assert Get([], "name") == None;
    hide Get, AsU64, FileName;
  }

  /** A path without separators. */
  predicate Part(f: string) {
    f != "" && f != "." && f != ".." && '/' !in f
  }

  lemma {:induction false} AbsentIsNotFound(s: string, c: char)
    requires c !in s
    ensures Find(s, c) == |s|
  {
    if s != "" {
      AbsentIsNotFound(s[1..], c);
    }
  }

  lemma NoSeparator(f: string)
    requires '/' !in f
    ensures Find(f, '/') == |f| && f[..|f|] == f
  {
    AbsentIsNotFound(f, '/');
  }

  lemma FindFirst(f: string, rest: string)
    requires '/' !in f
    ensures Find(f + "/" + rest, '/') == |f|
    ensures (f + "/" + rest)[..|f|] == f && (f + "/" + rest)[|f| + 1..] == rest
  {
    FindIsFirst(f + "/" + rest, '/', |f|);
  }

  /** The parts of a path are those on both sides of any separator. */
  lemma {:induction false} ComponentsAcross(a: string, b: string)
    ensures Components(a + "/" + b) == Components(a) + Components(b)
    decreases |a|
  {
    hide Find, Components;
    var i := Find(a, '/');
    SplitThere(a, i, '/');
    if i == |a| {
      FirstPart(a, b);
    } else {
      var head, rest := a[..i], a[i + 1..];
      assert a + "/" + b == head + "/" + (rest + "/" + b);
      FirstPart(head, rest);
      FirstPart(head, rest + "/" + b);
      ComponentsAcross(rest, b);
    }
  }

  lemma FirstPart(head: string, rest: string)
    requires '/' !in head
    ensures Components(head + "/" + rest) == Components(head) + Components(rest)
  {
    hide Find;
    NoSeparator(head);
    FindFirst(head, rest);
  }

  /** The part behind the last separator names the file, whatever stands before it. */
  lemma LastPartNames(dir: string, f: string)
    requires Part(f) && (dir == "" || dir[|dir| - 1] == '/')
    ensures FileName(dir + f) == Some(f)
  {
    hide Find;
    NoSeparator(f);
    assert Components(f) == [f];
    if dir == "" {
      assert dir + f == f;
    } else {
      hide Components;
      var d := dir[..|dir| - 1];
      assert dir + f == d + "/" + f;
      ComponentsAcross(d, f);
    }
  }

  /** A separator or a dot at the end does not matter, and a path that ends in two dots, or
      that has no parts, names nothing. */
  lemma EndsOfPaths(a: string)
    ensures FileName(a + "/" + "") == FileName(a + "/" + ".") == FileName(a)
    ensures FileName(a + "/" + "..") == FileName("..") == FileName("") == FileName(".") == None
  {
    NoSeparator("");
    NoSeparator(".");
    NoSeparator("..");
    hide Find;
    assert Components("") == [] && Components(".") == [] && Components("..") == [".."];
    ComponentsAcross(a, "");
    ComponentsAcross(a, ".");
    ComponentsAcross(a, "..");
    hide Components;
  }

  lemma SplitThere(s: string, i: nat, c: char)
    requires i <= |s| && (forall k :: 0 <= k < i ==> s[k] != c)
    ensures c !in s[..i]
    ensures i < |s| && s[i] == c ==> s == s[..i] + [c] + s[i + 1..]
  {
  }

  lemma NamedByPath(kv: Pairs, dir: string, f: string)
    requires Get(kv, "name") == None && Part(f) && (dir == "" || dir[|dir| - 1] == '/')
    ensures NameOf(kv, dir + f) == f
  {
    LastPartNames(dir, f);
  }

  // ---- Lines ----

  /** A blank line or a comment changes nothing but the header, and that only before the first
      table, where it is kept as it stands. */
  lemma CommentLine(st: Parsing, pad: string, comment: string, at: nat)
    requires Blank(pad) && (comment == "" || comment[0] == '#')
    ensures Step(st, pad + comment, at) == Ok(if st.inHeader then st.(header := st.header + (pad + comment) + "\n") else st)
  {
    var raw := pad + comment;
    if comment == "" {
      TrimTakesBlanks(pad, "", "");
      assert raw == pad + "" + "";
      assert Trim(raw) == "";
    } else {
      TrimKeepsFirst(pad, comment);
      assert Trim(raw)[0] == '#';
    }
    hide Trim, ParseValue, Close;
  }

  /** Text that begins with no blank keeps its first character. */
  lemma TrimKeepsFirst(pad: string, s: string)
    requires Blank(pad) && s != "" && !IsWhitespace(s[0])
    ensures Trim(pad + s) != "" && Trim(pad + s)[0] == s[0]
  {
    TrimStartPast(pad, s);
    TrimEndKeepsFirst(s);
  }

  lemma {:induction false} TrimEndKeepsFirst(s: string)
    requires s != "" && !IsWhitespace(s[0])
    ensures TrimEnd(s) != "" && TrimEnd(s)[0] == s[0]
  {
    hide IsWhitespace;
    if IsWhitespace(s[|s| - 1]) {
      TrimEndKeepsFirst(s[..|s| - 1]);
    }
  }

  /** A table heading with blanks around it completes the table before, or reports what is
      wrong with that at this line. */
  lemma TableLine(st: Parsing, a: string, b: string, at: nat)
    requires Blank(a) && Blank(b)
    ensures var r := Step(st, a + "[[binary]]" + b, at);
            if st.cur == None then r == Ok(Parsing(st.header, st.entries, Some([]), false))
            else match FromPairs(st.cur.value, at)
              case Ok(e) => r == Ok(Parsing(st.header, st.entries + [e], Some([]), false))
              case Err(x) => r == Err(x)
  {
    hide FromPairs, Trim;
    TrimTakesBlanks(a, "[[binary]]", b);
  }

  /** Any other heading is refused. */
  lemma OtherTable(st: Parsing, a: string, s: string, at: nat)
    requires Blank(a) && s != "" && s[0] == '[' && Trim(a + s) != "[[binary]]"
    ensures Step(st, a + s, at) == Err(OnlyBinaryTables(at))
  {
    TrimKeepsFirst(a, s);
    hide Trim;
  }

  /** A key and a value around an equals sign, with blanks anywhere: the pair is added to the
      table that is open. Without a table, or where the value cannot be read, it is refused. */
  lemma PairLine(st: Parsing, a: string, key: string, b: string, c: string, text: string, d: string, at: nat)
    requires Blank(a) && Blank(b) && Blank(c) && Blank(d) && Tight(key) && Tight(text)
    requires '=' !in key && '=' !in b && key[0] != '[' && key[0] != '#'
    ensures Step(st, a + key + b + "=" + c + text + d, at) ==
      match ParseValue(text)
      case None => Err(CannotParse(at, text))
      case Some(v) =>
        if st.cur == None then Err(KeyOutsideTable(at)) else Ok(st.(cur := Some(st.cur.value + [(key, v)])))
  {
    hide IsWhitespace, Trim, ParseValue, Close;
    var line := key + b + "=" + c + text;
    assert line[|line| - 1] == text[|text| - 1];
    TrimTakesBlanks(a, line, d);
    assert a + key + b + "=" + c + text + d == a + line + d;
    EqualsAt(key, b, c + text);
    assert line == key + b + "=" + (c + text);
    TrimTakesBlanks("", key, b);
    assert "" + key + b == key + b;
    TrimTakesBlanks(c, text, "");
    assert c + text + "" == c + text;
    assert line[0] == key[0] && "[[binary]]"[0] == '[';
  }

  lemma EqualsAt(key: string, b: string, rest: string)
    requires '=' !in key && '=' !in b
    ensures var line := key + b + "=" + rest;
            Find(line, '=') == |key + b| && line[..|key + b|] == key + b && line[|key + b| + 1..] == rest
  {
    var line := key + b + "=" + rest;
    assert line[..|key + b|] == key + b;
    FindIsFirst(line, '=', |key + b|);
  }

  /** A line of neither kind is refused. */
  lemma NoPairLine(st: Parsing, a: string, s: string, b: string, at: nat)
    requires Blank(a) && Blank(b) && Tight(s) && s[0] != '[' && s[0] != '#' && '=' !in s
    ensures Step(st, a + s + b, at) == Err(ExpectedKeyValue(at))
  {
    hide IsWhitespace, Trim, ParseValue, Close;
    TrimTakesBlanks(a, s, b);
    AbsentIsNotFound(s, '=');
  }

  // ---- What is printed ----

  /** Only quotes and backslashes are escaped. */
  lemma {:induction false} PlainTextIsQuotedAsIs(s: string)
    requires '"' !in s && '\\' !in s
    ensures Escape(s) == s && Quote(s) == "\"" + s + "\""
  {
    if s != "" {
      PlainTextIsQuotedAsIs(s[1..]);
    }
  }

  lemma EscapesAre(a: string, c: char, b: string)
    requires c == '"' || c == '\\'
    ensures Escape(a + [c] + b) == Escape(a) + ['\\', c] + Escape(b)
  {
    EscapeAcross(a, [c] + b);
    assert a + [c] + b == a + ([c] + b) && ([c] + b)[1..] == b;
  }

  lemma {:induction false} EscapeAcross(a: string, b: string)
    ensures Escape(a + b) == Escape(a) + Escape(b)
  {
    if a == "" {
      assert a + b == b;
    } else {
      assert (a + b)[1..] == a[1..] + b;
      EscapeAcross(a[1..], b);
    }
  }

  /** No number is printed with a leading zero. */
  lemma {:induction false} NoLeadingZero(n: nat, radix: Radix)
    requires n > 0
    ensures Digits(n, radix)[0] != '0'
  {
    if n >= radix {
      PositiveQuotient(n, radix);
      NoLeadingZero(n / radix, radix);
    }
  }

  lemma PositiveQuotient(n: nat, radix: Radix)
    requires n >= radix
    ensures n / radix > 0
  {
  }

  /** Keys are padded to ten columns; a longer one is followed by one blank. */
  lemma KeyColumns(value: string)
    ensures FieldLine("name", value) == "name      = " + value && FieldLine("outcome", value) == "outcome   = " + value
    ensures FieldLine("max_steps", value) == "max_steps = " + value && FieldLine("virtual_clock", value) == "virtual_clock = " + value
  {
    SpacesAre();
  }

  lemma SpacesAre()
    ensures Spaces(1) == " " && Spaces(3) == "   " && Spaces(6) == "      "
  {
    assert Spaces(0) == "" && Spaces(1) == Spaces(0) + " ";
    assert Spaces(2) == "  " && Spaces(3) == "   " && Spaces(4) == "    " && Spaces(5) == "     " && Spaces(6) == "      ";
  }

  function LineFor(key: string, value: Option<string>): seq<string> {
    match value case Some(v) => [FieldLine(key, v)] case None => []
  }

  /** Which keys are printed, in this order, and with what value: each flag but quick only when
      it is set, the exit code only after an exit, and what is optional only when it is there. */
  lemma PrintedFields(e: Entry)
    ensures FieldLines(e, FIELDS) ==
      LineFor("name", Some(Quote(e.name))) + LineFor("path", Some(Quote(e.path))) +
      LineFor("note", if e.note.Some? then Some(Quote(e.note.value)) else None) +
      LineFor("quick", Some(if e.quick then "true" else "false")) +
      LineFor("virtual_clock", if e.virtualClock then Some("true") else None) +
      LineFor("jit", if e.jit then Some("true") else None) +
      LineFor("debug_idle", if e.debugIdle then Some("true") else None) +
      LineFor("wine_boot", if e.wineBoot.Some? then Some(Quote(e.wineBoot.value)) else None) +
      LineFor("max_steps", Some(Decimal(e.maxSteps))) +
      LineFor("outcome", Some(Quote(match e.outcome case Exit => "exit" case Fault => "fault" case Budget => "budget"))) +
      LineFor("exit_code", if e.outcome == Exit then Some(Decimal(e.exitCode)) else None) +
      LineFor("steps", Some(Decimal(e.steps))) + LineFor("tolerance", Some(Decimal(e.tolerance))) +
      LineFor("artifacts", if e.artifacts.Some? then Some(Decimal(e.artifacts.value)) else None) +
      LineFor("rip", if e.rip.Some? then Some(Quote("0x" + Digits(e.rip.value, 16))) else None) +
      LineFor("stop", if e.stop.Some? then Some(Quote(e.stop.value)) else None)
  {
    hide FieldLines, FieldLine, Quote, Decimal, Digits, LineFor;
    NoFields(e);
    NextField(e, 0);
    NextField(e, 1);
    NextField(e, 2);
    NextField(e, 3);
    NextField(e, 4);
    NextField(e, 5);
    NextField(e, 6);
    NextField(e, 7);
    NextField(e, 8);
    NextField(e, 9);
    NextField(e, 10);
    NextField(e, 11);
    NextField(e, 12);
    NextField(e, 13);
    NextField(e, 14);
    NextField(e, 15);
  }

  lemma NoFields(e: Entry)
    ensures forall more: seq<string> :: FieldLines(e, 0) + more == more
  {
  }

  lemma NextField(e: Entry, i: nat)
    requires i < FIELDS
    ensures FieldLines(e, i + 1) == FieldLines(e, i) + LineFor(Key(i), FieldText(e, i))
  {
    hide FieldText, Key, FieldLine;
  }
}
