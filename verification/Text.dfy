/** The string operations of the Rust standard library that the manifest code is built on. */
module Text {
  /** Index of the first occurrence, or the length when there is none. */
  function Find(s: string, c: char): (i: nat)
    ensures i <= |s| && (i < |s| ==> s[i] == c)
    ensures forall k :: 0 <= k < i ==> s[k] != c
  {
    if s == "" || s[0] == c then 0 else Find(s[1..], c) + 1
  }

  lemma FindIsFirst(s: string, c: char, i: nat)
    requires i < |s| && s[i] == c && c !in s[..i]
    ensures Find(s, c) == i
  {
    assert forall k :: 0 <= k < i ==> s[k] in s[..i];
  }

  /** `char::is_whitespace`: the White_Space property of Unicode. */
  predicate IsWhitespace(c: char) {
    '\t' <= c <= '\r' || c == ' ' || c == '\U{0085}' || c == '\U{00A0}' || c == '\U{1680}' ||
    '\U{2000}' <= c <= '\U{200A}' || c == '\U{2028}' || c == '\U{2029}' || c == '\U{202F}' ||
    c == '\U{205F}' || c == '\U{3000}'
  }

  function TrimStart(s: string): string {
    if s != "" && IsWhitespace(s[0]) then TrimStart(s[1..]) else s
  }

  function TrimEnd(s: string): string {
    if s != "" && IsWhitespace(s[|s| - 1]) then TrimEnd(s[..|s| - 1]) else s
  }

  /** `str::trim` */
  function Trim(s: string): string {
    TrimEnd(TrimStart(s))
  }

  function Spaces(n: nat): (s: string)
    ensures |s| == n && forall c :: c in s ==> c == ' '
  {
    if n == 0 then "" else Spaces(n - 1) + " "
  }

  /** Neither end is blank, so there is nothing to trim. */
  predicate Tight(s: string) {
    s != "" && !IsWhitespace(s[0]) && !IsWhitespace(s[|s| - 1])
  }

  lemma TrimTight(s: string)
    requires Tight(s)
    ensures Trim(s) == s && Trim(" " + s) == s
  {
    assert (" " + s)[1..] == s;
  }

  lemma {:induction false} TrimPadding(s: string, n: nat)
    requires Tight(s)
    ensures Trim(s + Spaces(n)) == s
  {
    assert (s + Spaces(n))[0] == s[0];
    if n == 0 {
      assert s + Spaces(0) == s;
    } else {
      TrimPadding(s, n - 1);
      assert (s + Spaces(n))[..|s| + n - 1] == s + Spaces(n - 1);
      assert (s + Spaces(n - 1))[0] == s[0];
    }
  }

  function ChopCr(s: string): string {
    if s != "" && s[|s| - 1] == '\r' then s[..|s| - 1] else s
  }

  /** `str::lines`: each line ends at a newline, which takes a carriage return before it
      along; text after the last newline is a line of its own. */
  function Lines(text: string): seq<string> {
    if text == "" then []
    else
      var i := Find(text, '\n');
      if i == |text| then [text] else [ChopCr(text[..i])] + Lines(text[i + 1..])
  }

  /** Every line followed by a newline. */
  function Unlines(ls: seq<string>): string {
    if ls == [] then "" else ls[0] + "\n" + Unlines(ls[1..])
  }

  predicate WholeLines(text: string) {
    text == "" || text[|text| - 1] == '\n'
  }

  lemma FindAcross(h: string, t: string, c: char)
    requires Find(h, c) < |h|
    ensures Find(h + t, c) == Find(h, c)
  {
    var i := Find(h, c);
    assert forall k :: 0 <= k < i ==> h[k] != c;
    assert (h + t)[..i] == h[..i];
    FindIsFirst(h + t, c, i);
  }

  /** Text ending in a newline and what follows it are cut into lines separately. */
  lemma {:induction false} LinesAcross(h: string, t: string)
    requires WholeLines(h)
    ensures Lines(h + t) == Lines(h) + Lines(t)
    decreases |h|
  {
    if h == "" {
      assert h + t == t;
    } else {
      var i := Find(h, '\n');
      FindAcross(h, t, '\n');
      assert (h + t)[..i] == h[..i];
      assert (h + t)[i + 1..] == h[i + 1..] + t;
      LinesAcross(h[i + 1..], t);
      assert Lines(h + t) == [ChopCr(h[..i])] + Lines(h[i + 1..] + t);
    }
  }

  /** Text after the last newline is a line as it stands, carriage return included. */
  lemma LastLineStands(h: string, t: string)
    requires WholeLines(h) && t != "" && '\n' !in t
    ensures Lines(h + t) == Lines(h) + [t]
  {
    LinesAcross(h, t);
    assert Find(t, '\n') == |t|;
  }

  /** A line that `lines` gives back as it was. */
  predicate PlainLine(l: string) {
    '\n' !in l && (l == "" || l[|l| - 1] != '\r')
  }

  lemma {:induction false} LinesOfUnlines(ls: seq<string>)
    requires forall l :: l in ls ==> PlainLine(l)
    ensures Lines(Unlines(ls)) == ls
  {
    if ls == [] {
    } else {
      var l, rest := ls[0], Unlines(ls[1..]);
      assert PlainLine(l);
      var text := l + "\n" + rest;
      assert text[..|l|] == l && text[|l|] == '\n';
      FindIsFirst(text, '\n', |l|);
      assert text[|l| + 1..] == rest;
      LinesOfUnlines(ls[1..]);
    }
  }

  lemma {:induction false} UnlinesAcross(a: seq<string>, b: seq<string>)
    ensures Unlines(a + b) == Unlines(a) + Unlines(b)
  {
    if a == [] {
      assert a + b == b;
    } else {
      UnlinesAcross(a[1..], b);
      assert (a + b)[1..] == a[1..] + b;
    }
  }

  lemma {:induction false} UnlinesIsWhole(ls: seq<string>)
    ensures WholeLines(Unlines(ls))
  {
    if ls != [] {
      UnlinesIsWhole(ls[1..]);
    }
  }

  /** A line never contains a newline. */
  lemma {:induction false} LinesHaveNoNewline(text: string, l: string)
    requires l in Lines(text)
    ensures '\n' !in l
    decreases |text|
  {
    var i := Find(text, '\n');
    if i == |text| {
      assert text[..i] == text;
    } else if l in Lines(text[i + 1..]) {
      LinesHaveNoNewline(text[i + 1..], l);
    }
  }

  lemma {:induction false} TrimKeeps(s: string, c: char)
    ensures c in TrimStart(s) ==> c in s
    ensures c in TrimEnd(s) ==> c in s
  {
    if s != "" {
      if IsWhitespace(s[0]) {
        TrimKeeps(s[1..], c);
      }
      if IsWhitespace(s[|s| - 1]) {
        TrimKeeps(s[..|s| - 1], c);
      }
    }
  }
}
