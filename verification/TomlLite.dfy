/** The hand-written TOML subset: values, how they are read, and how text is quoted. */
module TomlLite {
  import opened Words
  import opened Text

  datatype Value = Str(text: string) | Int(number: i64) | Bool(flag: bool)

  type Radix = r: nat | r == 10 || r == 16 witness 10

  // ---- Numbers ----

  predicate FitsI64(n: int) {
    -0x8000_0000_0000_0000 <= n < 0x8000_0000_0000_0000
  }

  /** `char::to_digit` */
  function DigitOf(c: char, radix: Radix): Option<nat> {
    if '0' <= c <= '9' then Some(c as nat - '0' as nat)
    else if radix == 16 && 'a' <= c <= 'f' then Some(c as nat - 'a' as nat + 10)
    else if radix == 16 && 'A' <= c <= 'F' then Some(c as nat - 'A' as nat + 10)
    else None
  }

  function DigitChar(d: nat): char
    requires d < 16
  {
    if d < 10 then '0' + d as char else 'a' + (d - 10) as char
  }

  /** Formatting with `{}` and `{:x}`, without prefix */
  function Digits(n: nat, radix: Radix): (s: string)
    ensures s != ""
  {
    if n < radix then [DigitChar(n)] else Digits(n / radix, radix) + [DigitChar(n % radix)]
  }

  function ParseDigits(s: string, radix: Radix): Option<nat> {
    if s == "" then Some(0)
    else
      match (ParseDigits(s[..|s| - 1], radix), DigitOf(s[|s| - 1], radix))
      case (Some(v), Some(d)) => Some(v * radix + d)
      case _ => None
  }

  /** `i64::from_str_radix`: an optional sign, at least one digit, and a value that fits. */
  function ParseI64(s: string, radix: Radix): Option<i64> {
    var signed := s != "" && (s[0] == '-' || s[0] == '+');
    var digits := if signed then s[1..] else s;
    if digits == "" then None
    else
      match ParseDigits(digits, radix)
      case None => None
      case Some(v) =>
        var n: int := if signed && s[0] == '-' then 0 - v else v;
        if FitsI64(n) then Some(n) else None
  }

  /** Formatting an i64 with `{}` */
  function Decimal(n: int): string {
    if n < 0 then "-" + Digits(-n, 10) else Digits(n, 10)
  }

  lemma DigitIsRead(d: nat, radix: Radix)
    requires d < radix
    ensures DigitOf(DigitChar(d), radix) == Some(d)
  {
  }

  lemma ParseOneMore(s: string, d: nat, radix: Radix)
    requires d < radix && ParseDigits(s, radix).Some?
    ensures ParseDigits(s + [DigitChar(d)], radix) == Some(ParseDigits(s, radix).value * radix + d)
  {
    hide DigitOf, DigitChar;
    DigitIsRead(d, radix);
    assert (s + [DigitChar(d)])[..|s|] == s;
  }

  lemma {:induction false} DigitsRoundTrip(n: nat, radix: Radix)
    ensures ParseDigits(Digits(n, radix), radix) == Some(n)
  {
    hide DigitOf, DigitChar;
    if n < radix {
      ParseOneMore("", n, radix);
      assert "" + [DigitChar(n)] == [DigitChar(n)];
    } else {
      hide ParseDigits;
      DigitsRoundTrip(n / radix, radix);
      ParseOneMore(Digits(n / radix, radix), n % radix, radix);
      QuotientAndRemainder(n, radix);
    }
  }

  lemma QuotientAndRemainder(n: nat, radix: Radix)
    ensures n / radix * radix + n % radix == n
  {
  }

  lemma {:induction false} DigitsAreDigits(n: nat, radix: Radix)
    ensures forall c :: c in Digits(n, radix) ==> '0' <= c <= '9' || (radix == 16 && 'a' <= c <= 'f')
  {
    if n >= radix {
      DigitsAreDigits(n / radix, radix);
    }
  }

  /** A number is read back exactly when it fits a signed 64-bit integer. */
  lemma DecimalRoundTrip(n: int)
    ensures ParseI64(Decimal(n), 10) == if FitsI64(n) then Some(n) else None
  {
    var m := if n < 0 then -n else n;
    DigitsRoundTrip(m, 10);
    DigitsAreDigits(m, 10);
    assert Digits(m, 10)[0] in Digits(m, 10);
    if n < 0 {
      assert Decimal(n)[1..] == Digits(m, 10);
    }
  }

  lemma HexRoundTrip(n: nat)
    ensures ParseI64(Digits(n, 16), 16) == if FitsI64(n) then Some(n) else None
  {
    DigitsRoundTrip(n, 16);
    DigitsAreDigits(n, 16);
    assert Digits(n, 16)[0] in Digits(n, 16);
  }

  // ---- Values ----

  /** The text up to the closing quote, with escapes undone; None when the quote never closes. */
  function Unquote(s: string, out: string): (r: Option<string>)
    ensures r.Some? ==> |r.value| < |out| + |s|
  {
    if s == "" then None
    else if s[0] == '"' then Some(out)
    else if s[0] == '\\' then if |s| == 1 then None else Unquote(s[2..], out + [s[1]])
    else Unquote(s[1..], out + [s[0]])
  }

  function RemoveUnderscores(s: string): string {
    if s == "" then ""
    else if s[0] == '_' then RemoveUnderscores(s[1..])
    else [s[0]] + RemoveUnderscores(s[1..])
  }

  /** `Value::parse` on text with no leading quote */
  function ParseBare(s: string): Option<Value> {
    if s == "true" then Some(Bool(true))
    else if s == "false" then Some(Bool(false))
    else
      var cleaned := RemoveUnderscores(s);
      match if "0x" <= cleaned then ParseI64(cleaned[2..], 16) else ParseI64(cleaned, 10)
      case Some(n) => Some(Int(n))
      case None => None
  }

  /** What `Value::parse` looks at: bare text loses its comment and surrounding blanks. */
  function Significant(text: string): string {
    if text != "" && text[0] == '"' then text else Trim(text[..Find(text, '#')])
  }

  /** `Value::parse` */
  function ParseValue(text: string): (r: Option<Value>)
    ensures r.Some? && r.value.Str? ==> |r.value.text| < |text|
  {
    TrimShrinks(text[..Find(text, '#')]);
    var s := Significant(text);
    if s != "" && s[0] == '"' then
      match Unquote(s[1..], "")
      case Some(t) => Some(Str(t))
      case None => None
    else
      ParseBare(s)
  }

  lemma {:induction false} TrimShrinks(s: string)
    ensures |TrimStart(s)| <= |s| && |TrimEnd(s)| <= |s| && |Trim(s)| <= |s|
  {
    TrimStartShrinks(s);
    TrimEndShrinks(s);
    TrimEndShrinks(TrimStart(s));
  }

  lemma {:induction false} TrimStartShrinks(s: string)
    ensures |TrimStart(s)| <= |s|
  {
    if s != "" && IsWhitespace(s[0]) {
      TrimStartShrinks(s[1..]);
    }
  }

  lemma {:induction false} TrimEndShrinks(s: string)
    ensures |TrimEnd(s)| <= |s|
  {
    if s != "" && IsWhitespace(s[|s| - 1]) {
      TrimEndShrinks(s[..|s| - 1]);
    }
  }

  /** `Value::as_u64`: a negative integer wraps, a string is read as a value in its turn. */
  function AsU64(v: Value): Option<u64>
    decreases if v.Str? then |v.text| + 1 else 0
  {
    match v
    case Int(n) => Some(Wrap64(n))
    case Bool(_) => None
    case Str(s) =>
      match ParseValue(s)
      case Some(w) => AsU64(w)
      case None => None
  }

  function EscapeChar(c: char): string {
    if c == '"' || c == '\\' then ['\\', c] else [c]
  }

  function Escape(s: string): string {
    if s == "" then ""
    else EscapeChar(s[0]) + Escape(s[1..])
  }

  function Quote(s: string): string {
    "\"" + Escape(s) + "\""
  }

  /** The last value under a key. */
  function Get(kv: seq<(string, Value)>, key: string): Option<Value> {
    if kv == [] then None
    else if kv[|kv| - 1].0 == key then Some(kv[|kv| - 1].1)
    else Get(kv[..|kv| - 1], key)
  }

  // ---- The loops ----

  method ParseQuoted(rest: string) returns (r: Option<Value>)
    ensures r == match Unquote(rest, "") case Some(t) => Some(Str(t)) case None => None
  {
    var out := "";
    var i := 0;
    while i < |rest|
      invariant 0 <= i <= |rest|
      invariant Unquote(rest, "") == Unquote(rest[i..], out)
    {
      var c := rest[i];
      if c == '"' {
        return Some(Str(out));
      } else if c == '\\' {
        if i + 1 == |rest| {
          return None;
        }
        assert rest[i..][2..] == rest[i + 2..];
        out := out + [rest[i + 1]];
        i := i + 2;
      } else {
        assert rest[i..][1..] == rest[i + 1..];
        out := out + [c];
        i := i + 1;
      }
    }
    return None;
  }

  lemma EscapeNext(s: string, i: nat, o: string)
    requires i < |s|
    ensures o + Escape(s[i..]) == o + EscapeChar(s[i]) + Escape(s[i + 1..])
    ensures o + ['\\', s[i]] == o + ['\\'] + [s[i]]
  {
    assert s[i..][1..] == s[i + 1..];
  }

  method ToQuoted(s: string) returns (o: string)
    ensures o == Quote(s)
  {
    o := "\"";
    for i := 0 to |s|
      invariant o + Escape(s[i..]) == "\"" + Escape(s)
    {
      EscapeNext(s, i, o);
      if s[i] == '"' || s[i] == '\\' {
        o := o + ['\\'];
      }
      o := o + [s[i]];
    }
    assert s[|s|..] == "";
    o := o + "\"";
  }

  // ---- Quoting is undone by reading ----

  lemma UnquoteStep(c: char, tail: string, out: string)
    ensures Unquote(EscapeChar(c) + tail, out) == Unquote(tail, out + [c])
  {
    var text := EscapeChar(c) + tail;
    assert text[|EscapeChar(c)|..] == tail;
    assert text[|EscapeChar(c)| - 1] == c;
  }

  lemma UnquoteEnd(rest: string, out: string)
    ensures Unquote("" + "\"" + rest, out) == Some(out)
  {
    assert ("" + "\"" + rest)[0] == '"';
  }

  lemma {:induction false} UnquoteEscape(s: string, rest: string, out: string)
    ensures Unquote(Escape(s) + "\"" + rest, out) == Some(out + s)
  {
    hide Unquote;
    if s == "" {
      assert out + s == out;
      UnquoteEnd(rest, out);
    } else {
      var tail := Escape(s[1..]) + "\"" + rest;
      assert Escape(s) + "\"" + rest == EscapeChar(s[0]) + tail;
      UnquoteStep(s[0], tail, out);
      UnquoteEscape(s[1..], rest, out + [s[0]]);
      assert out + [s[0]] + s[1..] == out + s;
    }
  }

  /** Every string survives quoting and reading, whatever follows the closing quote. */
  lemma QuoteRoundTrip(s: string, rest: string)
    ensures ParseValue(Quote(s) + rest) == Some(Str(s))
  {
    UnquoteEscape(s, rest, "");
    assert (Quote(s) + rest)[1..] == Escape(s) + "\"" + rest;
    assert "" + s == s;
  }

  /** Text without blanks, comments, quotes or separators: it is read as it stands. */
  predicate Bare(s: string) {
    s != "" && forall k :: 0 <= k < |s| ==> BareChar(s[k])
  }

  predicate BareChar(c: char) {
    c == '-' || '0' <= c <= '9' || 'a' <= c <= 'z'
  }

  lemma {:induction false} BareHasNoUnderscore(s: string)
    requires s == "" || Bare(s)
    ensures RemoveUnderscores(s) == s
  {
    if s != "" {
      assert BareChar(s[0]);
      BareHasNoUnderscore(s[1..]);
    }
  }

  lemma {:induction false} BareHasNoHash(s: string)
    requires s == "" || Bare(s)
    ensures Find(s, '#') == |s|
  {
    if s != "" {
      assert BareChar(s[0]);
      BareHasNoHash(s[1..]);
    }
  }

  lemma BareIsTight(s: string)
    requires Bare(s)
    ensures Tight(s) && s[0] != '"' && Trim(s) == s
  {
    hide Trim, TrimStart, TrimEnd;
    assert BareChar(s[0]) && BareChar(s[|s| - 1]);
    TrimTight(s);
  }

  lemma BareIsRead(s: string)
    requires Bare(s)
    ensures ParseValue(s) == ParseBare(s) && RemoveUnderscores(s) == s && Tight(s)
  {
    hide Bare, Find, Trim, ParseBare, RemoveUnderscores, Unquote, Tight;
    BareIsTight(s);
    BareHasNoHash(s);
    assert s[..|s|] == s;
    BareHasNoUnderscore(s);
  }

  lemma DecimalIsBare(n: int)
    ensures Bare(Decimal(n)) && Decimal(n)[0] !in "tf" && !("0x" <= Decimal(n))
  {
    var m := if n < 0 then -n else n;
    var d := Digits(m, 10);
    DigitsAreDigits(m, 10);
    forall k | 0 <= k < |d|
      ensures '0' <= d[k] <= '9'
    {
      assert d[k] in d;
    }
    assert 'x' in "0x" && ("0x" <= Decimal(n) ==> 'x' in Decimal(n));
  }

  /** A printed integer reads back as itself if it fits i64, and not at all otherwise. */
  lemma IntRoundTrip(n: int)
    ensures ParseValue(Decimal(n)) == if FitsI64(n) then Some(Int(n)) else None
  {
    DecimalIsBare(n);
    BareIsRead(Decimal(n));
    DecimalRoundTrip(n);
  }

  /** The same for an address printed in hexadecimal and read through `as_u64`. */
  lemma AddressRoundTrip(n: u64)
    ensures AsU64(Str("0x" + Digits(n, 16))) == if FitsI64(n) then Some(n) else None
  {
    hide RemoveUnderscores, ParseI64, ParseDigits, Digits, ParseValue, Significant;
    var s := "0x" + Digits(n, 16);
    HexIsBare(n);
    BareIsRead(s);
    assert s[2..] == Digits(n, 16);
    HexRoundTrip(n);
  }

  lemma HexIsBare(n: nat)
    ensures Bare("0x" + Digits(n, 16))
  {
    hide Digits;
    DigitsAreDigits(n, 16);
    var d := Digits(n, 16);
    forall k | 0 <= k < |d|
      ensures BareChar(d[k])
    {
      assert d[k] in d;
    }
  }

  // ---- Which texts are which strings ----

  /** e writes s between quotes: a quote or a backslash after a backslash, anything else
      plain or after a backslash. */
  predicate Spells(e: string, s: string)
    decreases |s|
  {
    if s == "" then e == ""
    else
      (e != "" && e[0] == s[0] && e[0] != '"' && e[0] != '\\' && Spells(e[1..], s[1..])) ||
      (|e| >= 2 && e[0] == '\\' && e[1] == s[0] && Spells(e[2..], s[1..]))
  }

  /** Up to the first quote that is not escaped, what was read is what is spelled. */
  lemma {:induction false} UnquoteSpells(t: string, out: string) returns (n: nat, s: string)
    requires Unquote(t, out).Some?
    ensures n < |t| && t[n] == '"' && Spells(t[..n], s) && Unquote(t, out).value == out + s
    decreases |t|
  {
    if t[0] == '"' {
      n, s := 0, "";
    } else {
      var w := if t[0] == '\\' then 2 else 1;
      var c := t[w - 1];
      var m, u := UnquoteSpells(t[w..], out + [c]);
      n, s := m + w, [c] + u;
      assert t[..n][w..] == t[w..][..m] && s[1..] == u;
      assert out + [c] + u == out + s;
    }
  }

  lemma {:induction false} SpellsUnquote(t: string, n: nat, s: string, out: string)
    requires n < |t| && t[n] == '"' && Spells(t[..n], s)
    ensures Unquote(t, out) == Some(out + s)
    decreases |s|
  {
    if s == "" {
      assert out + s == out;
    } else {
      var e := t[..n];
      var plain := e != "" && e[0] == s[0] && e[0] != '"' && e[0] != '\\' && Spells(e[1..], s[1..]);
      var w := if plain then 1 else 2;
      assert t[w..][..n - w] == e[w..];
      SpellsUnquote(t[w..], n - w, s[1..], out + [s[0]]);
      assert out + [s[0]] + s[1..] == out + s;
    }
  }

  /** A text is read as a string exactly when it begins with a quote and spells that string
      up to a closing one. */
  lemma StringsExactly(text: string, s: string)
    ensures ParseValue(text) == Some(Str(s)) <==>
      var t := Significant(text);
      t != "" && t[0] == '"' && exists n :: 0 <= n < |t| - 1 && t[1..][n] == '"' && Spells(t[1..][..n], s)
  {
    hide Significant, Unquote, Spells, ParseI64, RemoveUnderscores;
    var t := Significant(text);
    if t != "" && t[0] == '"' {
      if Unquote(t[1..], "").Some? {
        var n, u := UnquoteSpells(t[1..], "");
        assert "" + u == u;
      }
      forall n | 0 <= n < |t| - 1 && t[1..][n] == '"' && Spells(t[1..][..n], s)
        ensures Unquote(t[1..], "") == Some(s)
      {
        SpellsUnquote(t[1..], n, s, "");
        assert "" + s == s;
      }
    }
  }
}
