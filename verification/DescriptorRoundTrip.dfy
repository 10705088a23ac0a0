/** Printing a descriptor and parsing it gives back the symbol and the libraries. */
module DescriptorRoundTrip {
  import opened Common
  import opened DescriptorText
  import opened DescriptorNames
  import opened ResPaths
  import opened Descriptor
  import opened DescriptorPrinter
  import Utf8

  datatype Entry = Entry(key: string, path: string, style: Style)

  // Bytes and characters.

  predicate Narrow(s: string) { forall i :: 0 <= i < |s| ==> s[i] as int < 256 }

  function Codes(s: string): (r: seq<u8>)
    requires Narrow(s)
    ensures |r| == |s| && forall i :: 0 <= i < |s| ==> r[i] == s[i] as int
  {
    seq(|s|, i requires 0 <= i < |s| => s[i] as int)
  }

  ghost predicate TextString(s: string) { Narrow(s) && Utf8.IsText(Codes(s)) }

  lemma CharsOfCodes(s: string)
    requires Narrow(s)
    ensures Chars(Codes(s)) == s
  {
  }

  lemma {:induction false} EncodeAllAppends(cs: seq<nat>, ds: seq<nat>)
    requires Utf8.Scalars(cs) && Utf8.Scalars(ds)
    ensures Utf8.EncodeAll(cs + ds) == Utf8.EncodeAll(cs) + Utf8.EncodeAll(ds)
  {
    if cs == [] {
      assert cs + ds == ds;
    } else {
      EncodeAllAppends(cs[1..], ds);
      assert (cs + ds)[1..] == cs[1..] + ds;
    }
  }

  lemma TextJoins(a: string, b: string)
    requires TextString(a) && TextString(b)
    ensures TextString(a + b)
  {
    hide Utf8.Scalars, Utf8.EncodeAll;
    var cs :| Utf8.Scalars(cs) && Utf8.EncodeAll(cs) == Codes(a);
    var ds :| Utf8.Scalars(ds) && Utf8.EncodeAll(ds) == Codes(b);
    ScalarsJoin(cs, ds);
    EncodeAllAppends(cs, ds);
    assert Codes(a + b) == Codes(a) + Codes(b);
  }

  lemma ScalarsJoin(cs: seq<nat>, ds: seq<nat>)
    requires Utf8.Scalars(cs) && Utf8.Scalars(ds)
    ensures Utf8.Scalars(cs + ds)
  {
  }

  predicate Ascii(s: string) { forall i :: 0 <= i < |s| ==> 0 < s[i] as int < 128 }

  lemma {:induction false} AsciiIsText(s: string)
    requires Ascii(s)
    ensures TextString(s)
  {
    if s == "" {
      assert Utf8.EncodeAll([]) == Codes("");
    } else {
      AsciiIsText(s[1..]);
      OneIsText(s[0]);
      TextJoins([s[0]], s[1..]);
      assert [s[0]] + s[1..] == s;
    }
  }

  lemma OneIsText(c: char)
    requires 0 < c as int < 128
    ensures TextString([c])
  {
    var cs: seq<nat> := [c as int];
    assert cs[1..] == [];
    assert Utf8.EncodeAll(cs) == Codes([c]);
  }

  lemma {:induction false} EscapeAppends(a: string, b: string)
    ensures Escape(a + b) == Escape(a) + Escape(b)
  {
    hide EscapeChar;
    if a == "" {
      assert a + b == b;
    } else {
      EscapeAppends(a[1..], b);
      assert (a + b)[1..] == a[1..] + b;
      assert EscapeChar(a[0]) + (Escape(a[1..]) + Escape(b)) == EscapeChar(a[0]) + Escape(a[1..]) + Escape(b);
    }
  }

  lemma {:induction false} HighIsNotEscaped(s: string)
    requires forall i :: 0 <= i < |s| ==> s[i] as int >= 128
    ensures Escape(s) == s
  {
    if s != "" {
      HighIsNotEscaped(s[1..]);
    }
  }

  /** Escaping puts nothing inside a multi-byte character. */
  lemma {:induction false} EscapedIsText(s: string, cs: seq<nat>)
    requires Narrow(s) && Utf8.Scalars(cs) && Utf8.EncodeAll(cs) == Codes(s)
    ensures TextString(Escape(s))
    decreases |cs|
  {
    if cs == [] {
      assert s == "";
      AsciiIsText("");
    } else {
      var first, rest := FirstCharacter(s, cs);
      hide Escape, TextString, Narrow, Utf8.Encode, Utf8.EncodeAll, Utf8.Scalars;
      EscapedIsText(rest, cs[1..]);
      EscapedCharacterIsText(first, cs[0]);
      EscapeAppends(first, rest);
      TextJoins(Escape(first), Escape(rest));
    }
  }

  lemma FirstCharacter(s: string, cs: seq<nat>) returns (first: string, rest: string)
    requires Narrow(s) && Utf8.Scalars(cs) && cs != [] && Utf8.EncodeAll(cs) == Codes(s)
    ensures first + rest == s && Narrow(first) && Narrow(rest) && Utf8.Scalar(cs[0]) && Utf8.Scalars(cs[1..])
    ensures Utf8.Encode(cs[0]) == Codes(first) && Utf8.EncodeAll(cs[1..]) == Codes(rest)
  {
    hide Utf8.Encode;
    var n := |Utf8.Encode(cs[0])|;
    var whole := Utf8.Encode(cs[0]) + Utf8.EncodeAll(cs[1..]);
    assert whole == Codes(s);
    first, rest := s[..n], s[n..];
    assert Codes(first) == whole[..n] && Codes(rest) == whole[n..];
  }

  lemma EscapedCharacterIsText(first: string, c: nat)
    requires Narrow(first) && Utf8.Scalar(c) && Utf8.Encode(c) == Codes(first)
    ensures TextString(Escape(first))
  {
    if c < 0x80 {
      Utf8.EncodeAscii(c);
      assert first[1..] == "";
      assert Escape(first) == EscapeChar(first[0]);
      AsciiIsText(Escape(first));
    } else {
      Utf8.LeadByte(c);
      HighIsNotEscaped(first);
      assert [c][1..] == [];
      assert Utf8.EncodeAll([c]) == Codes(first);
    }
  }

  // The printed text.

  function LibraryLines(libs: seq<Entry>): seq<string> {
    if libs == [] then [] else [AssignmentLine(libs[0].key, libs[0].path, libs[0].style)] + LibraryLines(libs[1..])
  }

  function Lines(symbol: string, libs: seq<Entry>, a: Style, b: Style, c: Style): seq<string> {
    [SectionLine("configuration", a), AssignmentLine("entry_symbol", symbol, b), SectionLine("libraries", c)] +
    LibraryLines(libs)
  }

  function Text(lines: seq<string>): string { if lines == [] then "" else lines[0] + "\n" + Text(lines[1..]) }

  predicate OneLine(s: string) { '\n' !in s }

  lemma {:induction false} TextSplits(lines: seq<string>)
    requires forall l :: l in lines ==> OneLine(l)
    ensures Split(Text(lines), {'\n'}) == lines + [""]
  {
    if lines == [] {
      assert lines + [""] == [""];
    } else {
      TextSplits(lines[1..]);
      assert OneLine(lines[0]);
      SplitNowhere(lines[0], {'\n'});
      SplitHere(lines[0], '\n', Text(lines[1..]), {'\n'});
      assert lines[0] + ['\n'] + Text(lines[1..]) == Text(lines);
      assert [lines[0]] + (lines[1..] + [""]) == lines + [""];
    }
  }

  /** What makes a line printable: it stays on its line and is text. */
  ghost predicate LineOk(l: string) { OneLine(l) && TextString(l) }

  lemma LineJoins(a: string, b: string)
    requires LineOk(a) && LineOk(b)
    ensures LineOk(a + b)
  {
    TextJoins(a, b);
  }

  lemma {:induction false} EscapedOnOneLine(s: string)
    ensures OneLine(Escape(s))
  {
    if s != "" {
      EscapedOnOneLine(s[1..]);
    }
  }

  lemma AsciiLine(s: string)
    requires Ascii(s) && '\n' !in s
    ensures LineOk(s)
  {
    AsciiIsText(s);
  }

  lemma SpacingLine(s: string)
    requires Spacing(s)
    ensures LineOk(s)
  {
    forall i | 0 <= i < |s| ensures 0 < s[i] as int < 128 { assert s[i] in s; }
    AsciiLine(s);
  }

  lemma BareLine(s: string)
    requires Bare(s)
    ensures LineOk(s)
  {
    forall i | 0 <= i < |s| ensures 0 < s[i] as int < 128 { assert s[i] in s; }
    AsciiLine(s);
  }

  lemma CommentLine(s: string)
    requires Comment(s) && TextString(s)
    ensures LineOk(s)
  {
  }

  lemma QuotedLine(value: string)
    requires TextString(value)
    ensures LineOk(QuotedText(value))
  {
    hide Escape;
    var cs :| Utf8.Scalars(cs) && Utf8.EncodeAll(cs) == Codes(value);
    EscapedIsText(value, cs);
    EscapedOnOneLine(value);
    AsciiLine("\"");
    LineJoins("\"", Escape(value));
    LineJoins("\"" + Escape(value), "\"");
  }

  lemma AssignmentLineOk(key: string, value: string, st: Style)
    requires Bare(key) && StyleOk(st) && TextString(st.comment) && TextString(value)
    ensures LineOk(AssignmentLine(key, value, st))
  {
    hide LineOk, Bare, Spacing, Comment, TextString, QuotedText;
    SpacingLine(st.indent);
    BareLine(key);
    SpacingLine(st.beforeEq);
    AsciiLine("=");
    SpacingLine(st.afterEq);
    QuotedLine(value);
    SpacingLine(st.trail);
    CommentLine(st.comment);
    LineJoins(key, st.beforeEq);
    LineJoins(key + st.beforeEq, "=");
    LineJoins(key + st.beforeEq + "=", st.afterEq);
    LineJoins(Head(key, st), QuotedText(value));
    LineJoins(st.indent, Head(key, st) + QuotedText(value));
    LineJoins(st.indent + (Head(key, st) + QuotedText(value)), st.trail);
    LineJoins(st.indent + (Head(key, st) + QuotedText(value)) + st.trail, st.comment);
  }

  lemma SectionLineOk(name: string, st: Style)
    requires Bare(name) && StyleOk(st) && TextString(st.comment)
    ensures LineOk(SectionLine(name, st))
  {
    hide LineOk, Bare, Spacing, Comment, TextString;
    SpacingLine(st.indent);
    BareLine(name);
    AsciiLine("[");
    AsciiLine("]");
    SpacingLine(st.trail);
    CommentLine(st.comment);
    LineJoins("[", name);
    LineJoins("[" + name, "]");
    LineJoins(st.indent, "[" + name + "]");
    LineJoins(st.indent + ("[" + name + "]"), st.trail);
    LineJoins(st.indent + ("[" + name + "]") + st.trail, st.comment);
  }

  lemma {:induction false} TextOfLines(lines: seq<string>)
    requires forall l :: l in lines ==> LineOk(l)
    ensures TextString(Text(lines))
  {
    hide TextString, LineOk;
    AsciiIsText("");
    if lines != [] {
      TextOfLines(lines[1..]);
      LineText(lines[0]);
      AsciiIsText("\n");
      TextJoins(lines[0], "\n");
      TextJoins(lines[0] + "\n", Text(lines[1..]));
    }
  }

  lemma LineText(l: string)
    requires LineOk(l)
    ensures TextString(l) && OneLine(l)
  {
  }

  // The meaning of the printed text.

  ghost predicate StyleFits(st: Style) { StyleOk(st) && TextString(st.comment) }

  ghost predicate EntryFits(e: Entry) { FeatureKey(e.key) && Safe(e.path) && TextString(e.path) && StyleFits(e.style) }

  ghost predicate Distinct(libs: seq<Entry>) { forall i, j :: 0 <= i < j < |libs| ==> libs[i].key != libs[j].key }

  /** The libraries, with the lines they stand on. */
  function Numbered(libs: seq<Entry>, first: nat): (r: seq<Library>)
    ensures |r| == |libs|
    ensures forall i :: 0 <= i < |r| ==> r[i] == Library(libs[i].key, libs[i].path, first + i)
  {
    seq(|libs|, i requires 0 <= i < |libs| => Library(libs[i].key, libs[i].path, first + i))
  }

  lemma KeyIsBare(key: string)
    requires FeatureKey(key)
    ensures Bare(key)
  {
    assert "" in Split("", {'.'});
  }

  lemma SafeIsPrintable(path: string)
    requires Safe(path)
    ensures Printable(path)
  {
    forall c | c in path ensures c >= ' ' {
      var i :| 0 <= i < |path| && path[i] == c;
      if i < 6 {
        assert path[..6][i] == c;
      } else {
        assert path[6..][i - 6] == c;
        assert c in path[6..];
      }
    }
  }

  lemma SymbolIsBare(symbol: string)
    requires ValidSymbol(symbol)
    ensures Bare(symbol) && Printable(symbol) && TextString(symbol)
  {
    forall c | c in symbol ensures WordChar(c) {
      var i :| 0 <= i < |symbol| && symbol[i] == c;
    }
    forall i | 0 <= i < |symbol| ensures 0 < symbol[i] as int < 128 { assert symbol[i] in symbol; }
    AsciiIsText(symbol);
  }

  lemma LibraryReads(p: Progress, e: Entry, line: nat)
    requires p.section == "libraries" && EntryFits(e) && !HasKey(p.libraries, e.key)
    ensures ReadLine(p, AssignmentLine(e.key, e.path, e.style), line) ==
            Fine(p.(libraries := p.libraries + [Library(e.key, e.path, line)]))
  {
    hide ReadLine, AssignmentLine, Unquoted, QuotedText, Safe, FeatureKey, StyleOk, TextString, HasKey, Printable;
    KeyIsBare(e.key);
    SafeIsPrintable(e.path);
    AssignmentReads(p, e.key, e.path, e.style, line);
  }

  lemma BlankLineReads(p: Progress, line: nat)
    ensures ReadLine(p, "", line) == Fine(p)
  {
  }

  lemma {:induction false} LibrariesRead(p: Progress, libs: seq<Entry>, read: nat)
    requires p.section == "libraries" && Distinct(libs) && forall e :: e in libs ==> EntryFits(e)
    requires forall e :: e in libs ==> !HasKey(p.libraries, e.key)
    ensures ReadLines(p, LibraryLines(libs) + [""], read) ==
            Finished(p.(libraries := p.libraries + Numbered(libs, read + 1)))
    decreases |libs|
  {
    hide ReadLine, AssignmentLine, EntryFits, Finished;
    var lines := LibraryLines(libs) + [""];
    if libs == [] {
      BlankLineReads(p, read + 1);
      assert lines[0] == "" && lines[1..] == [];
      assert p.libraries + Numbered(libs, read + 1) == p.libraries;
    } else {
      var e, rest := libs[0], libs[1..];
      var added := Library(e.key, e.path, read + 1);
      LibraryReads(p, e, read + 1);
      var q := p.(libraries := p.libraries + [added]);
      hide HasKey, Numbered, LibraryLines;
      var line := AssignmentLine(e.key, e.path, e.style);
      assert LibraryLines(libs) == [line] + LibraryLines(rest) by { FirstLibraryLine(libs); }
      assert lines == [line] + (LibraryLines(rest) + [""]);
      OneLineRead(p, q, line, LibraryLines(rest) + [""], read);
      forall f | f in rest ensures EntryFits(f) && !HasKey(q.libraries, f.key) {
        KeyStaysNew(p.libraries, added, libs, f);
      }
      LibrariesRead(q, rest, read + 1);
      NumberedGrows(p.libraries, libs, read + 1);
    }
  }

  lemma FirstLibraryLine(libs: seq<Entry>)
    requires libs != []
    ensures LibraryLines(libs) == [AssignmentLine(libs[0].key, libs[0].path, libs[0].style)] + LibraryLines(libs[1..])
  {
  }

  lemma NumberedGrows(before: seq<Library>, libs: seq<Entry>, first: nat)
    requires libs != []
    ensures before + [Library(libs[0].key, libs[0].path, first)] + Numbered(libs[1..], first + 1) == before + Numbered(libs, first)
  {
  }

  lemma KeyStaysNew(libraries: seq<Library>, added: Library, libs: seq<Entry>, f: Entry)
    requires libs != [] && Distinct(libs) && added.key == libs[0].key && f in libs[1..]
    requires !HasKey(libraries, f.key)
    ensures f in libs && !HasKey(libraries + [added], f.key)
  {
    var i :| 0 <= i < |libs| - 1 && libs[1..][i] == f;
    assert libs[i + 1] == f;
  }

  lemma EntryReads(symbol: string, b: Style, line: nat)
    requires ValidSymbol(symbol) && StyleOk(b)
    ensures ReadLine(START.(section := "configuration"), AssignmentLine("entry_symbol", symbol, b), line) ==
            Fine(START.(section := "configuration", entry := Some(symbol)))
  {
    hide ReadLine, AssignmentLine, Unquoted, QuotedText, StyleOk, Printable;
    SymbolIsBare(symbol);
    SettingNameIsBare();
    AssignmentReads(START.(section := "configuration"), "entry_symbol", symbol, b, line);
  }

  lemma SettingNameIsBare()
    ensures Bare("entry_symbol") && Bare("configuration") && Bare("libraries")
  {
  }

  /** The printed lines read as intended. */
  lemma LinesRead(symbol: string, libs: seq<Entry>, a: Style, b: Style, c: Style)
    requires ValidSymbol(symbol) && StyleFits(a) && StyleFits(b) && StyleFits(c)
    requires Distinct(libs) && forall e :: e in libs ==> EntryFits(e)
    ensures ReadLines(START, Lines(symbol, libs, a, b, c) + [""], 0) ==
            Finished(Progress("libraries", Some(symbol), None, None, Numbered(libs, 4)))
  {
    hide ReadLine, AssignmentLine, SectionLine, EntryFits, Finished, Bare, TextString, StyleOk, ValidSymbol, LibraryLines;
    SettingNameIsBare();
    var p1 := START.(section := "configuration");
    var p2 := p1.(entry := Some(symbol));
    var p3 := p2.(section := "libraries");
    var l0, l1, l2 := SectionLine("configuration", a), AssignmentLine("entry_symbol", symbol, b), SectionLine("libraries", c);
    var rest := LibraryLines(libs) + [""];
    SectionReads(START, "configuration", a, 1);
    EntryReads(symbol, b, 2);
    SectionReads(p2, "libraries", c, 3);
    assert Lines(symbol, libs, a, b, c) + [""] == [l0] + ([l1] + ([l2] + rest));
    OneLineRead(START, p1, l0, [l1] + ([l2] + rest), 0);
    OneLineRead(p1, p2, l1, [l2] + rest, 1);
    OneLineRead(p2, p3, l2, rest, 2);
    LibrariesRead(p3, libs, 3);
    assert p3.libraries + Numbered(libs, 4) == Numbered(libs, 4);
  }

  lemma OneLineRead(p: Progress, q: Progress, line: string, rest: seq<string>, read: nat)
    requires ReadLine(p, line, read + 1) == Fine(q)
    ensures ReadLines(p, [line] + rest, read) == ReadLines(q, rest, read + 1)
  {
    hide ReadLine;
    assert ([line] + rest)[0] == line && ([line] + rest)[1..] == rest;
  }

  lemma {:induction false} LibraryLinesOk(libs: seq<Entry>)
    requires forall e :: e in libs ==> EntryFits(e)
    ensures forall l :: l in LibraryLines(libs) ==> LineOk(l)
  {
    if libs != [] {
      hide LineOk, AssignmentLine, FeatureKey, Safe, StyleOk, TextString;
      var e := libs[0];
      assert e in libs;
      KeyIsBare(e.key);
      AssignmentLineOk(e.key, e.path, e.style);
      LibraryLinesOk(libs[1..]);
    }
  }

  lemma LinesOk(symbol: string, libs: seq<Entry>, a: Style, b: Style, c: Style)
    requires ValidSymbol(symbol) && StyleFits(a) && StyleFits(b) && StyleFits(c)
    requires forall e :: e in libs ==> EntryFits(e)
    ensures forall l :: l in Lines(symbol, libs, a, b, c) ==> LineOk(l) && OneLine(l)
  {
    hide LineOk, AssignmentLine, SectionLine, EntryFits, TextString, StyleOk, LibraryLines, Bare;
    SettingNameIsBare();
    SymbolIsBare(symbol);
    SectionLineOk("configuration", a);
    AssignmentLineOk("entry_symbol", symbol, b);
    SectionLineOk("libraries", c);
    LibraryLinesOk(libs);
    forall l | l in Lines(symbol, libs, a, b, c) ensures LineOk(l) && OneLine(l) { LineText(l); }
  }

  /** For every valid symbol and non-empty list of distinct valid keys with safe paths, whatever the blanks and comments
      of the printed lines, parsing the printed text gives the same symbol and the same libraries in order. */
  lemma DescriptorRoundTrip(symbol: string, libs: seq<Entry>, a: Style, b: Style, c: Style)
    requires ValidSymbol(symbol) && StyleFits(a) && StyleFits(b) && StyleFits(c)
    requires libs != [] && Distinct(libs) && forall e :: e in libs ==> EntryFits(e)
    requires |Text(Lines(symbol, libs, a, b, c))| <= 0x40_0000
    ensures var text := Text(Lines(symbol, libs, a, b, c));
            Narrow(text) &&
            Meaning(Codes(text)) == Outcome(Progress("libraries", Some(symbol), None, None, Numbered(libs, 4)), None, 0)
  {
    hide LineOk, Lines, EntryFits, StyleFits, Utf8.IsText, Distinct, ReadLines, Split;
    var lines := Lines(symbol, libs, a, b, c);
    LinesOk(symbol, libs, a, b, c);
    TextOfLines(lines);
    TextSplits(lines);
    LinesRead(symbol, libs, a, b, c);
    CharsOfCodes(Text(lines));
    NotEmptyText(symbol, libs, a, b, c);
  }

  lemma NotEmptyText(symbol: string, libs: seq<Entry>, a: Style, b: Style, c: Style)
    ensures Text(Lines(symbol, libs, a, b, c)) != ""
  {
  }
}
