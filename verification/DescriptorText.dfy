/** The text tools of the descriptor parser (src/core/gdextension.cpp): trimming, splitting, quoting. A C++ char is
    a Dafny char below 256, and the character classes are those of the C locale. */
module DescriptorText {
  import opened Common

  predicate Space(c: char) { c == ' ' || 9 <= c as int <= 13 }

  predicate Letter(c: char) { 'a' <= c <= 'z' || 'A' <= c <= 'Z' }

  predicate Digit(c: char) { '0' <= c <= '9' }

  predicate WordChar(c: char) { Letter(c) || Digit(c) || c == '_' }

  /** The characters of each class. */
  lemma CharacterClasses(c: char)
    ensures Space(c) <==> c as int in {9, 10, 11, 12, 13, 32}
    ensures Digit(c) <==> c in {'0', '1', '2', '3', '4', '5', '6', '7', '8', '9'}
    ensures Letter(c) <==>
      c in {'a', 'b', 'c', 'd', 'e', 'f', 'g', 'h', 'i', 'j', 'k', 'l', 'm',
            'n', 'o', 'p', 'q', 'r', 's', 't', 'u', 'v', 'w', 'x', 'y', 'z'} ||
      c in {'A', 'B', 'C', 'D', 'E', 'F', 'G', 'H', 'I', 'J', 'K', 'L', 'M',
            'N', 'O', 'P', 'Q', 'R', 'S', 'T', 'U', 'V', 'W', 'X', 'Y', 'Z'}
  {
  }

  predicate Blank(v: string) { forall c :: c in v ==> Space(c) }

  // Trimming.

  function TrimLeft(v: string): string { if v != "" && Space(v[0]) then TrimLeft(v[1..]) else v }

  function TrimRight(v: string): string {
    if v != "" && Space(v[|v| - 1]) then TrimRight(v[..|v| - 1]) else v
  }

  function Trimmed(v: string): string { TrimRight(TrimLeft(v)) }

  method Trim(v: string) returns (r: string)
    ensures r == Trimmed(v)
  {
    r := v;
    while r != "" && Space(r[0])
      invariant TrimLeft(r) == TrimLeft(v)
      decreases |r|
    {
      r := r[1..];
    }
    while r != "" && Space(r[|r| - 1])
      invariant TrimRight(r) == Trimmed(v)
      decreases |r|
    {
      r := r[..|r| - 1];
    }
  }

  /** Trimming takes away the blanks on both sides and nothing else. */
  lemma TrimmedCore(a: string, core: string, b: string)
    requires Blank(a) && Blank(b) && (core == "" || (!Space(core[0]) && !Space(core[|core| - 1])))
    ensures Trimmed(a + core + b) == core
  {
    if core == "" {
      assert (a + core) + b == a + b;
      DropsLeft(a + b, "");
      assert (a + b) + "" == a + b;
    } else {
      assert a + core + b == a + (core + b);
      DropsLeft(a, core + b);
      DropsRight(core, b);
    }
  }

  lemma {:induction false} DropsLeft(a: string, rest: string)
    requires Blank(a) && (rest == "" || !Space(rest[0]))
    ensures TrimLeft(a + rest) == rest
  {
    if a == "" {
      assert a + rest == rest;
    } else {
      assert a[0] in a && (a + rest)[1..] == a[1..] + rest;
      DropsLeft(a[1..], rest);
    }
  }

  lemma {:induction false} DropsRight(core: string, b: string)
    requires Blank(b) && (core == "" || !Space(core[|core| - 1]))
    ensures TrimRight(core + b) == core
  {
    if b == "" {
      assert core + b == core;
    } else {
      assert b[|b| - 1] in b && (core + b)[..|core + b| - 1] == core + b[..|b| - 1];
      DropsRight(core, b[..|b| - 1]);
    }
  }

  // Splitting.

  function Split(s: string, seps: set<char>): (r: seq<string>)
    ensures |r| >= 1
  {
    if s == "" then [""] else Extend(Split(s[..|s| - 1], seps), s[|s| - 1], seps)
  }

  /** One more character opens a new part or lengthens the last one. */
  function Extend(parts: seq<string>, c: char, seps: set<char>): (r: seq<string>)
    requires |parts| >= 1
    ensures |r| >= 1
  {
    if c in seps then parts + [""] else parts[..|parts| - 1] + [parts[|parts| - 1] + [c]]
  }

  lemma ExtendLater(x: seq<string>, y: seq<string>, c: char, seps: set<char>)
    requires |y| >= 1
    ensures Extend(x + y, c, seps) == x + Extend(y, c, seps)
  {
    if c in seps {
      assert (x + y) + [""] == x + (y + [""]);
    } else {
      assert (x + y)[..|x + y| - 1] == x + y[..|y| - 1];
      assert (x + y)[|x + y| - 1] == y[|y| - 1];
    }
  }

  lemma Opens(parts: seq<string>, c: char, seps: set<char>)
    requires |parts| >= 1 && c in seps
    ensures Extend(parts, c, seps) == parts + [""]
  {
  }

  lemma {:induction false} SplitHere(a: string, c: char, b: string, seps: set<char>)
    requires c in seps
    ensures Split(a + [c] + b, seps) == Split(a, seps) + Split(b, seps)
  {
    hide Extend;
    var t := a + [c] + b;
    if b == "" {
      assert t[..|t| - 1] == a && t[|t| - 1] == c;
      Opens(Split(a, seps), c, seps);
    } else {
      var shorter := b[..|b| - 1];
      SplitHere(a, c, shorter, seps);
      assert t[..|t| - 1] == a + [c] + shorter && t[|t| - 1] == b[|b| - 1];
      ExtendLater(Split(a, seps), Split(shorter, seps), b[|b| - 1], seps);
    }
  }

  lemma {:induction false} SplitNowhere(a: string, seps: set<char>)
    requires forall c :: c in a ==> c !in seps
    ensures Split(a, seps) == [a]
  {
    if a != "" {
      SplitNowhere(a[..|a| - 1], seps);
      assert a[|a| - 1] in a && a[..|a| - 1] + [a[|a| - 1]] == a;
    }
  }

  /** No character but the separators is lost. */
  lemma {:induction false} PartWith(s: string, seps: set<char>, c: char) returns (part: string)
    requires c in s && c !in seps
    ensures part in Split(s, seps) && c in part
    decreases |s|
  {
    var before, last := s[..|s| - 1], s[|s| - 1];
    var parts := Split(before, seps);
    if c in before {
      part := PartWith(before, seps, c);
      var k :| 0 <= k < |parts| && parts[k] == part;
      if last !in seps && k == |parts| - 1 { part := part + [last]; }
      assert Split(s, seps)[k] == part;
    } else {
      part := parts[|parts| - 1] + [last];
      assert Split(s, seps)[|parts| - 1] == part && part[|part| - 1] == c;
    }
  }

  /** Splitting a prefix one character further. */
  lemma SplitStep(s: string, i: nat, seps: set<char>, done: seq<string>, part: string)
    requires i < |s| && Split(s[..i], seps) == done + [part]
    ensures Split(s[..i + 1], seps) == if s[i] in seps then done + [part, ""] else done + [part + [s[i]]]
  {
    assert s[..i + 1][..i] == s[..i];
    if s[i] in seps {
      assert done + [part] + [""] == done + [part, ""];
    }
  }

  // Quotes.

  datatype Mode = Plain | Quoted | Escaped

  function Next(m: Mode, c: char): Mode {
    match m
    case Escaped => Quoted
    case Quoted => if c == '\\' then Escaped else if c == '\"' then Plain else Quoted
    case Plain => if c == '\"' then Quoted else Plain
  }

  function Reading(m: Mode, v: string): Mode {
    if v == "" then m else Next(Reading(m, v[..|v| - 1]), v[|v| - 1])
  }

  lemma {:induction false} ReadingOn(m: Mode, a: string, b: string)
    ensures Reading(m, a + b) == Reading(Reading(m, a), b)
  {
    if b == "" {
      assert a + b == a;
    } else {
      ReadingOn(m, a, b[..|b| - 1]);
      assert (a + b)[..|a + b| - 1] == a + b[..|b| - 1];
    }
  }

  predicate StopsAt(v: string, i: nat, stops: set<char>)
    requires i < |v|
  {
    v[i] in stops && Reading(Plain, v[..i]).Plain?
  }

  /** The first unquoted character of a set at or after i, or the end. */
  function Stop(v: string, i: nat, stops: set<char>): (k: nat)
    requires i <= |v|
    ensures i <= k <= |v|
    decreases |v| - i
  {
    if i == |v| || StopsAt(v, i, stops) then i else Stop(v, i + 1, stops)
  }

  method FirstUnquoted(v: string, stops: set<char>) returns (k: nat)
    requires '\"' !in stops
    ensures k == Stop(v, 0, stops)
  {
    var quote, escape := false, false;
    for i := 0 to |v|
      invariant Stop(v, i, stops) == Stop(v, 0, stops)
      invariant Reading(Plain, v[..i]) == if escape then Escaped else if quote then Quoted else Plain
    {
      var c := v[i];
      assert v[..i + 1][..i] == v[..i];
      if escape {
        quote, escape := true, false;
      } else if quote && c == '\\' {
        escape := true;
      } else if c == '\"' {
        quote := !quote;
      } else if !quote && c in stops {
        return i;
      }
    }
    return |v|;
  }

  lemma {:induction false} StopIsFirst(v: string, i: nat, k: nat, stops: set<char>)
    requires i <= k <= |v| && (k < |v| ==> StopsAt(v, k, stops))
    requires forall j: nat :: i <= j < k ==> !StopsAt(v, j, stops)
    ensures Stop(v, i, stops) == k
    decreases k - i
  {
    if i < k {
      StopIsFirst(v, i + 1, k, stops);
    }
  }

  /** What an escape sequence stands for. */
  function Meant(c: char): Option<char> {
    if c == '\"' || c == '\\' then Some(c) else if c == 'n' then Some('\n') else if c == 't' then Some('\t') else None
  }

  function Before(s: string, rest: Option<string>): Option<string> {
    match rest
    case None => None
    case Some(r) => Some(s + r)
  }

  /** The text between two quotes. */
  function Unescape(b: string): Option<string> {
    if b == "" then Some("")
    else if b[0] == '\\' then
      if |b| < 2 || Meant(b[1]).None? then None else Before([Meant(b[1]).value], Unescape(b[2..]))
    else if b[0] == '\"' || b[0] < ' ' then None
    else Before([b[0]], Unescape(b[1..]))
  }

  function Unquoted(v: string): Option<string> {
    var t := Trimmed(v);
    if |t| < 2 || t[0] != '\"' || t[|t| - 1] != '\"' then None else Unescape(t[1..|t| - 1])
  }

  method ParseQuoted(v: string) returns (out: Option<string>)
    ensures out == Unquoted(v)
  {
    var t := Trim(v);
    if |t| < 2 || t[0] != '\"' || t[|t| - 1] != '\"' {
      return None;
    }
    var text, i := "", 1;
    ghost var n := |t| - 1;
    BeforeNothing(Unescape(t[i..n]));
    while i + 1 < |t|
      invariant 1 <= i <= n && Before(text, Unescape(t[i..n])) == Unescape(t[1..n])
    {
      var c := t[i];
      ghost var body := t[i..n];
      assert body[0] == c && body[1..] == t[i + 1..n];
      if c == '\\' {
        i := i + 1;
        if i + 1 >= |t| { return None; }
        assert body[1] == t[i] && body[2..] == t[i + 1..n];
        var meant := Meant(t[i]);
        if meant.None? { return None; }
        Associates(text, [meant.value], Unescape(t[i + 1..n]));
        text := text + [meant.value];
      } else if c == '\"' || c < ' ' {
        return None;
      } else {
        Associates(text, [c], Unescape(t[i + 1..n]));
        text := text + [c];
      }
      i := i + 1;
    }
    assert t[i..n] == "" && text + "" == text;
    return Some(text);
  }

  lemma BeforeNothing(rest: Option<string>)
    ensures Before("", rest) == rest
  {
    if rest.Some? {
      assert "" + rest.value == rest.value;
    }
  }

  lemma Associates(a: string, b: string, rest: Option<string>)
    ensures Before(a, Before(b, rest)) == Before(a + b, rest)
  {
    if rest.Some? {
      assert a + (b + rest.value) == (a + b) + rest.value;
    }
  }

  // Writing quoted text.

  function EscapeChar(c: char): string {
    if c == '\"' || c == '\\' then ['\\', c] else if c == '\n' then "\\n" else if c == '\t' then "\\t" else [c]
  }

  function Escape(s: string): string { if s == "" then "" else EscapeChar(s[0]) + Escape(s[1..]) }

  /** The text a quoted value can hold. */
  predicate Printable(s: string) { forall c :: c in s ==> c >= ' ' || c == '\n' || c == '\t' }

  /** Reading undoes writing. */
  lemma {:induction false} EscapeRoundTrip(s: string)
    requires Printable(s)
    ensures Unescape(Escape(s)) == Some(s)
  {
    if s != "" {
      var e := EscapeChar(s[0]);
      assert s[0] in s;
      assert forall c :: c in s[1..] ==> c in s;
      EscapeRoundTrip(s[1..]);
      assert (e + Escape(s[1..]))[|e|..] == Escape(s[1..]);
      assert [s[0]] + s[1..] == s;
    }
  }

  /** Quoted values are printable, whatever was read. */
  lemma {:induction false} UnescapedIsPrintable(b: string)
    requires Unescape(b).Some?
    ensures Printable(Unescape(b).value)
    decreases |b|
  {
    if b != "" {
      if b[0] == '\\' {
        UnescapedIsPrintable(b[2..]);
      } else {
        UnescapedIsPrintable(b[1..]);
      }
    }
  }

  /** No end of escaped text is unquoted. */
  lemma {:induction false} EscapedStaysQuoted(s: string, k: nat)
    requires k <= |Escape(s)|
    ensures !Reading(Quoted, Escape(s)[..k]).Plain? && (k == |Escape(s)| ==> Reading(Quoted, Escape(s)[..k]).Quoted?)
    decreases s
  {
    if s != "" {
      var e, rest := EscapeChar(s[0]), Escape(s[1..]);
      EscapedCharStaysQuoted(s[0]);
      if k < |e| {
        assert (e + rest)[..k] == e[..k];
      } else {
        assert (e + rest)[..k] == e + rest[..k - |e|];
        ReadingOn(Quoted, e, rest[..k - |e|]);
        EscapedStaysQuoted(s[1..], k - |e|);
      }
    }
  }

  lemma EscapedCharStaysQuoted(c: char)
    ensures Reading(Quoted, EscapeChar(c)).Quoted?
    ensures forall k: nat :: k < |EscapeChar(c)| ==> !Reading(Quoted, EscapeChar(c)[..k]).Plain?
  {
    var e := EscapeChar(c);
    assert Reading(Quoted, e[..0]) == Quoted;
    assert e[..1][..0] == e[..0];
    assert e[..|e|] == e;
    if |e| == 2 {
      assert e[..1] == [e[0]];
    }
  }

  /** Text without quotes stays plain. */
  lemma {:induction false} UnquotedStaysPlain(v: string)
    requires '\"' !in v
    ensures Reading(Plain, v).Plain?
  {
    if v != "" {
      UnquotedStaysPlain(v[..|v| - 1]);
      assert v[|v| - 1] in v;
    }
  }
}
