/** Which descriptors are accepted, told from the lines alone: what is wrong with a line, and what an accepted
    descriptor says, without the progress of the parser (src/core/gdextension.cpp:411-432). */
module DescriptorGrammar {
  import opened Common
  import opened DescriptorText
  import opened DescriptorNames
  import opened ResPaths
  import opened Descriptor
  import opened DescriptorPrinter

  // Lines, as they are without comments and outer blanks.

  function Cleaned(lines: seq<string>): (cs: seq<string>)
    ensures |cs| == |lines| && forall i :: 0 <= i < |lines| ==> cs[i] == Clean(lines[i])
  {
    seq(|lines|, i requires 0 <= i < |lines| => Clean(lines[i]))
  }

  predicate Header(c: string) { c != "" && c[0] == '[' }

  predicate Names(c: string, name: string) {
    |c| >= 3 && c[0] == '[' && c[|c| - 1] == ']' && Trimmed(c[1..|c| - 1]) == name
  }

  /** The last header before line n has this name. */
  ghost predicate InSection(cs: seq<string>, n: nat, name: string) {
    exists j: nat :: j < n <= |cs| && Names(cs[j], name) && forall k: nat :: j < k < n ==> !Header(cs[k])
  }

  ghost predicate Statement(cs: seq<string>, i: nat, section: string) {
    i < |cs| && cs[i] != "" && !Header(cs[i]) && InSection(cs, i, section)
  }

  predicate Assigns(c: string) { Stop(c, 0, {'='}) < |c| }

  function KeyOf(c: string): string { Trimmed(c[..Stop(c, 0, {'='})]) }

  function ValueOf(c: string): string { if Assigns(c) then c[Stop(c, 0, {'='}) + 1..] else "" }

  ghost predicate Sets(cs: seq<string>, i: nat, section: string, key: string) {
    Statement(cs, i, section) && Assigns(cs[i]) && KeyOf(cs[i]) == key
  }

  ghost predicate Known(cs: seq<string>, i: nat) { Statement(cs, i, "configuration") || Statement(cs, i, "libraries") }

  ghost predicate SetBefore(cs: seq<string>, n: nat, section: string, key: string) {
    exists j: nat :: j < n && Sets(cs, j, section, key)
  }

  /** What is wrong with line i, given the lines before it. */
  ghost predicate Wrong(cs: seq<string>, i: nat, problem: Problem)
    requires i < |cs|
  {
    var c := cs[i];
    match problem
    case MalformedSection => Header(c) && (|c| < 3 || c[|c| - 1] != ']')
    case EmptySection => Names(c, "")
    case NoAssignment => Known(cs, i) && !Assigns(c)
    case EmptyKey => Known(cs, i) && Assigns(c) && KeyOf(c) == ""
    case BadEntry =>
      Sets(cs, i, "configuration", "entry_symbol") &&
      (SetBefore(cs, i, "configuration", "entry_symbol") || Unquoted(ValueOf(c)).None? ||
       !ValidSymbol(Unquoted(ValueOf(c)).value))
    case BadCompatibility => Sets(cs, i, "configuration", "compatibility_minimum") && !Compatible(Loose(ValueOf(c)))
    case BadReloadable => Sets(cs, i, "configuration", "reloadable") && Trimmed(ValueOf(c)) !in {"true", "false"}
    case BadLibrary =>
      Statement(cs, i, "libraries") && Assigns(c) && KeyOf(c) != "" &&
      (!FeatureKey(KeyOf(c)) || Unquoted(ValueOf(c)).None? || !Safe(Unquoted(ValueOf(c)).value) ||
       SetBefore(cs, i, "libraries", KeyOf(c)))
    case _ => false
  }

  ghost predicate Right(cs: seq<string>, i: nat)
    requires i < |cs|
  {
    forall problem :: !Wrong(cs, i, problem)
  }

  // What the progress says about the lines read.

  ghost predicate SectionTold(p: Progress, cs: seq<string>, n: nat) {
    (p.section == "configuration" <==> InSection(cs, n, "configuration")) &&
    (p.section == "libraries" <==> InSection(cs, n, "libraries"))
  }

  /** The only line that sets the symbol. */
  ghost predicate EntryTold(p: Progress, cs: seq<string>, n: nat) {
    (p.entry.Some? <==> SetBefore(cs, n, "configuration", "entry_symbol")) &&
    forall j: nat :: j < n && Sets(cs, j, "configuration", "entry_symbol") ==> p.entry == Unquoted(ValueOf(cs[j]))
  }

  ghost predicate LastSet(cs: seq<string>, j: nat, n: nat, key: string) {
    j < n && Sets(cs, j, "configuration", key) && forall k: nat :: j < k < n ==> !Sets(cs, k, "configuration", key)
  }

  ghost predicate OptionsTold(p: Progress, cs: seq<string>, n: nat) {
    (p.compatibility.Some? <==> SetBefore(cs, n, "configuration", "compatibility_minimum")) &&
    (p.reloadable.Some? <==> SetBefore(cs, n, "configuration", "reloadable")) &&
    (forall j: nat :: LastSet(cs, j, n, "compatibility_minimum") ==> p.compatibility == Some(Loose(ValueOf(cs[j])))) &&
    forall j: nat :: LastSet(cs, j, n, "reloadable") ==> p.reloadable == Some(Trimmed(ValueOf(cs[j])) == "true")
  }

  ghost predicate LibraryTold(l: Library, cs: seq<string>, n: nat) {
    1 <= l.line <= n && Sets(cs, l.line - 1, "libraries", l.key) && Unquoted(ValueOf(cs[l.line - 1])) == Some(l.path)
  }

  ghost predicate LibrariesTold(p: Progress, cs: seq<string>, n: nat) {
    (forall l :: l in p.libraries ==> LibraryTold(l, cs, n)) &&
    forall j: nat, key :: j < n && Sets(cs, j, "libraries", key) ==>
      exists l :: l in p.libraries && l.key == key && l.line == j + 1
  }

  ghost predicate Told(p: Progress, cs: seq<string>, n: nat) {
    n <= |cs| && SectionTold(p, cs, n) && EntryTold(p, cs, n) && OptionsTold(p, cs, n) && LibrariesTold(p, cs, n)
  }

  lemma SectionStep(cs: seq<string>, n: nat, name: string)
    requires n < |cs|
    ensures Header(cs[n]) ==> (InSection(cs, n + 1, name) <==> Names(cs[n], name))
    ensures !Header(cs[n]) ==> (InSection(cs, n + 1, name) <==> InSection(cs, n, name))
  {
    hide Trimmed;
    if !Header(cs[n]) && InSection(cs, n, name) {
      var j: nat :| j < n <= |cs| && Names(cs[j], name) && forall k: nat :: j < k < n ==> !Header(cs[k]);
      assert forall k: nat :: j < k < n + 1 ==> !Header(cs[k]);
    }
    if InSection(cs, n + 1, name) {
      var j: nat :| j < n + 1 <= |cs| && Names(cs[j], name) && forall k: nat :: j < k < n + 1 ==> !Header(cs[k]);
      assert j < n ==> !Header(cs[n]);
    }
  }

  /** The keys read are those of the library lines. */
  lemma KeysTold(p: Progress, cs: seq<string>, n: nat, key: string)
    requires LibrariesTold(p, cs, n)
    ensures HasKey(p.libraries, key) <==> SetBefore(cs, n, "libraries", key)
  {
    hide Sets;
    if HasKey(p.libraries, key) {
      var l :| l in p.libraries && l.key == key;
      assert LibraryTold(l, cs, n);
    }
  }

  /** A line is refused exactly when something is wrong with it, and for that reason. */
  lemma RefusedExactlyWhenWrong(p: Progress, cs: seq<string>, n: nat, raw: string, problem: Problem)
    requires Told(p, cs, n) && n < |cs| && cs[n] == Clean(raw)
    ensures ReadLine(p, raw, n + 1) == Bad(problem) <==> Wrong(cs, n, problem)
  {
    hide Clean, Trimmed, Stop, InSection, OptionsTold, LibrariesTold, FeatureKey, Unquoted, Safe, Loose, Compatible,
      ValidSymbol, HasKey, SetBefore;
    var c := cs[n];
    if c == "" {
    } else if c[0] == '[' {
    } else if p.section == "configuration" || p.section == "libraries" {
      KeysTold(p, cs, n, KeyOf(c));
    }
  }

  // One more line read.

  lemma SectionToldStep(p: Progress, cs: seq<string>, n: nat, raw: string, q: Progress)
    requires SectionTold(p, cs, n) && n < |cs| && cs[n] == Clean(raw) && ReadLine(p, raw, n + 1) == Fine(q)
    ensures SectionTold(q, cs, n + 1)
  {
    hide Clean, Trimmed, Stop, InSection, FeatureKey, Unquoted, Safe, CompatibilityValue, ValidSymbol, HasKey;
    SectionStep(cs, n, "configuration");
    SectionStep(cs, n, "libraries");
  }

  lemma SetLater(cs: seq<string>, n: nat, section: string, key: string)
    ensures SetBefore(cs, n + 1, section, key) <==> SetBefore(cs, n, section, key) || Sets(cs, n, section, key)
  {
    hide Sets;
    if SetBefore(cs, n, section, key) {
      var j: nat :| j < n && Sets(cs, j, section, key);
      assert j < n + 1 && Sets(cs, j, section, key);
    }
  }

  /** A line that is read changes exactly the field it sets. */
  lemma LineTold(p: Progress, cs: seq<string>, n: nat, raw: string, q: Progress)
    requires SectionTold(p, cs, n) && n < |cs| && cs[n] == Clean(raw) && ReadLine(p, raw, n + 1) == Fine(q)
    ensures var sets := key => Sets(cs, n, "configuration", key);
            var value := ValueOf(cs[n]);
            q.entry == (if sets("entry_symbol") then Unquoted(value) else p.entry) &&
            (sets("entry_symbol") ==> p.entry.None? && Unquoted(value).Some?) &&
            q.compatibility == (if sets("compatibility_minimum") then Some(Loose(value)) else p.compatibility) &&
            q.reloadable == (if sets("reloadable") then Some(Trimmed(value) == "true") else p.reloadable)
    ensures var path := Unquoted(ValueOf(cs[n]));
            if Sets(cs, n, "libraries", KeyOf(cs[n])) then
              path.Some? && q.libraries == p.libraries + [Library(KeyOf(cs[n]), path.value, n + 1)]
            else q.libraries == p.libraries
  {
    hide Clean, Trimmed, Stop, InSection, FeatureKey, Unquoted, Safe, Loose, Compatible, ValidSymbol, HasKey;
  }

  lemma EntryToldStep(p: Progress, cs: seq<string>, n: nat, raw: string, q: Progress)
    requires SectionTold(p, cs, n) && EntryTold(p, cs, n)
    requires n < |cs| && cs[n] == Clean(raw) && ReadLine(p, raw, n + 1) == Fine(q)
    ensures EntryTold(q, cs, n + 1)
  {
    hide Clean, Sets, ReadLine, Unquoted, SectionTold;
    LineTold(p, cs, n, raw, q);
    SetLater(cs, n, "configuration", "entry_symbol");
  }

  lemma OptionsToldStep(p: Progress, cs: seq<string>, n: nat, raw: string, q: Progress)
    requires SectionTold(p, cs, n) && OptionsTold(p, cs, n)
    requires n < |cs| && cs[n] == Clean(raw) && ReadLine(p, raw, n + 1) == Fine(q)
    ensures OptionsTold(q, cs, n + 1)
  {
    hide Clean, Sets, ReadLine, Unquoted, SectionTold, Loose, Trimmed;
    LineTold(p, cs, n, raw, q);
    SetLater(cs, n, "configuration", "compatibility_minimum");
    SetLater(cs, n, "configuration", "reloadable");
    forall j: nat, key | LastSet(cs, j, n + 1, key) ensures j == n || LastSet(cs, j, n, key) { }
  }

  lemma LibrariesToldStep(p: Progress, cs: seq<string>, n: nat, raw: string, q: Progress)
    requires SectionTold(p, cs, n) && LibrariesTold(p, cs, n)
    requires n < |cs| && cs[n] == Clean(raw) && ReadLine(p, raw, n + 1) == Fine(q)
    ensures LibrariesTold(q, cs, n + 1)
  {
    hide Clean, ReadLine, Unquoted, SectionTold, Statement, Assigns, KeyOf, ValueOf;
    LineTold(p, cs, n, raw, q);
    forall l | l in q.libraries ensures LibraryTold(l, cs, n + 1) {
      if l in p.libraries {
        assert LibraryTold(l, cs, n);
      }
    }
    forall j: nat, key | j < n + 1 && Sets(cs, j, "libraries", key)
      ensures exists l :: l in q.libraries && l.key == key && l.line == j + 1
    {
      if j < n {
        var l :| l in p.libraries && l.key == key && l.line == j + 1;
        assert l in q.libraries;
      } else {
        var added := Library(key, Unquoted(ValueOf(cs[n])).value, n + 1);
        assert q.libraries[|q.libraries| - 1] == added;
      }
    }
  }

  lemma ToldAtStart(cs: seq<string>)
    ensures Told(START, cs, 0)
  {
  }

  /** Reading goes on to the first wrong line, or to the end. */
  lemma {:induction false} ReadingTold(p: Progress, lines: seq<string>, n: nat) returns (q: Progress, m: nat)
    requires Told(p, Cleaned(lines), n)
    ensures n <= m && Told(q, Cleaned(lines), m)
    ensures forall i: nat :: n <= i < m ==> Right(Cleaned(lines), i)
    ensures m < |lines| ==> !Right(Cleaned(lines), m)
    ensures m == |lines| ==> ReadLines(p, lines[n..], n) == Finished(q)
    ensures m < |lines| ==>
      exists problem :: Wrong(Cleaned(lines), m, problem) && ReadLines(p, lines[n..], n) == Outcome(q, Some(problem), m + 1)
    decreases |lines| - n
  {
    hide ReadLine, SectionTold, EntryTold, OptionsTold, LibrariesTold, Wrong, Clean, Finished;
    var cs := Cleaned(lines);
    q, m := p, n;
    if n < |lines| {
      assert lines[n..][0] == lines[n] && lines[n..][1..] == lines[n + 1..];
      forall problem ensures ReadLine(p, lines[n], n + 1) == Bad(problem) <==> Wrong(cs, n, problem) {
        RefusedExactlyWhenWrong(p, cs, n, lines[n], problem);
      }
      match ReadLine(p, lines[n], n + 1)
      case Bad(problem) =>
        assert Wrong(cs, n, problem);
      case Fine(next) =>
        SectionToldStep(p, cs, n, lines[n], next);
        EntryToldStep(p, cs, n, lines[n], next);
        OptionsToldStep(p, cs, n, lines[n], next);
        LibrariesToldStep(p, cs, n, lines[n], next);
        q, m := ReadingTold(next, lines, n + 1);
    }
  }

  /** The first wrong line is reported with what is wrong with it; if there is none, the descriptor is refused exactly
      for lack of a symbol or of libraries, and otherwise says what its lines say. */
  lemma AcceptedExactlyWhen(data: seq<u8>) returns (m: nat)
    requires Readable(data)
    ensures var out, cs := Meaning(data), Cleaned(Split(Chars(data), {'\n'}));
            m <= |cs| && (forall i: nat :: i < m ==> Right(cs, i)) && Told(out.progress, cs, m) &&
            if m < |cs| then out.line == m + 1 && out.error.Some? && Wrong(cs, m, out.error.value)
            else
              out.line == 0 &&
              (out.error == Some(NoEntry) <==> !SetBefore(cs, m, "configuration", "entry_symbol")) &&
              (out.error == Some(NoLibraries) <==>
                SetBefore(cs, m, "configuration", "entry_symbol") && !exists key :: SetBefore(cs, m, "libraries", key)) &&
              (out.error == None <==>
                SetBefore(cs, m, "configuration", "entry_symbol") && exists key :: SetBefore(cs, m, "libraries", key))
  {
    hide ReadLine, SectionTold, Wrong, OptionsTold, Clean, Readable, Split, Sets, Right;
    var lines := Split(Chars(data), {'\n'});
    ToldAtStart(Cleaned(lines));
    assert lines[0..] == lines;
    var q;
    q, m := ReadingTold(START, lines, 0);
    if m == |lines| {
      if q.libraries != [] {
        assert HasKey(q.libraries, q.libraries[0].key);
        KeysTold(q, Cleaned(lines), m, q.libraries[0].key);
      }
      forall key | SetBefore(Cleaned(lines), m, "libraries", key) ensures q.libraries != [] {
        KeysTold(q, Cleaned(lines), m, key);
      }
    }
  }

  /** Bytes that are no text are refused as such, and nothing else is. */
  lemma NotTextExactlyWhen(data: seq<u8>)
    ensures Meaning(data).error == Some(NotText) <==> !Readable(data)
    ensures !Readable(data) ==> Meaning(data).line == 0 && Meaning(data).progress.libraries == []
  {
    if Readable(data) {
      hide Readable, Meaning;
      var m := AcceptedExactlyWhen(data);
    }
  }

  // What a line is without its comment and its outer blanks.

  /** Comments begin at a mark outside quotes. Blanks around the text go, and so does a final carriage return. */
  lemma CommentAndBlanksGo(indent: string, core: string, trail: string, comment: string)
    requires Blank(indent) && Blank(trail) && (core == "" || (!Space(core[0]) && !Space(core[|core| - 1])))
    requires comment == "" || (comment[0] in {';', '#'} && Reading(Plain, core).Plain?)
    requires forall j: nat :: j < |core| && core[j] in {';', '#'} ==> !Reading(Plain, core[..j]).Plain?
    ensures Clean(indent + core + trail + comment) == core
  {
    hide Reading, Stop, Trimmed, DropReturn, Space;
    var indent', trail', comment' := ReturnGoes(indent, core, trail, comment);
    var body := indent' + core + trail';
    StopsAtComment(indent', core, trail', comment');
    assert (body + comment')[..|body|] == body;
    TrimmedCore(indent', core, trail');
  }

  lemma StopsAtComment(indent: string, core: string, trail: string, comment: string)
    requires Blank(indent) && Blank(trail)
    requires comment == "" || (comment[0] in {';', '#'} && Reading(Plain, core).Plain?)
    requires forall j: nat :: j < |core| && core[j] in {';', '#'} ==> !Reading(Plain, core[..j]).Plain?
    ensures Stop(indent + core + trail + comment, 0, COMMENT_MARKS) == |indent + core + trail|
  {
    hide Reading, Stop, Blank;
    var body := indent + core + trail;
    var v := body + comment;
    assert v[..|body|] == body && body[..|body|] == body;
    BlanksReadNothing(indent, core, trail, |body|);
    forall j: nat | j < |body| ensures !StopsAt(v, j, COMMENT_MARKS) {
      assert v[..j] == body[..j];
      BlanksReadNothing(indent, core, trail, j);
    }
    StopIsFirst(v, 0, |body|, COMMENT_MARKS);
  }

  lemma ReturnGoes(indent: string, core: string, trail: string, comment: string)
    returns (indent': string, trail': string, comment': string)
    requires Blank(indent) && Blank(trail) && (core == "" || !Space(core[|core| - 1]))
    requires comment == "" || comment[0] in {';', '#'}
    ensures DropReturn(indent + core + trail + comment) == indent' + core + trail' + comment'
    ensures Blank(indent') && Blank(trail') && (comment' == "" <==> comment == "")
    ensures comment' == "" || comment'[0] == comment[0]
  {
    var raw := indent + core + trail + comment;
    indent', trail', comment' := indent, trail, comment;
    if raw == "" || raw[|raw| - 1] != '\r' {
    } else if comment != "" {
      comment' := comment[..|comment| - 1];
      assert raw[..|raw| - 1] == indent + core + trail + comment';
    } else if trail != "" {
      trail' := trail[..|trail| - 1];
      assert raw[..|raw| - 1] == indent + core + trail' + comment';
    } else if core == "" {
      indent' := indent[..|indent| - 1];
      assert raw[..|raw| - 1] == indent' + core + trail + comment';
    }
  }

  /** Inside the text, reading stands where it stands in the core; the blanks hold no mark. */
  lemma BlanksReadNothing(indent: string, core: string, trail: string, j: nat)
    requires Blank(indent) && Blank(trail) && j <= |indent + core + trail|
    ensures var body := indent + core + trail;
            j < |body| && body[j] in {';', '#'} ==>
              |indent| <= j < |indent| + |core| && body[j] == core[j - |indent|] &&
              Reading(Plain, body[..j]) == Reading(Plain, core[..j - |indent|])
    ensures j == |indent + core + trail| && Reading(Plain, core).Plain? ==> Reading(Plain, indent + core + trail).Plain?
  {
    hide Reading;
    var body := indent + core + trail;
    UnquotedStaysPlain(indent);
    if j < |indent| {
      assert body[j] in indent;
    } else if j < |indent| + |core| {
      assert body[..j] == indent + core[..j - |indent|];
      ReadingOn(Plain, indent, core[..j - |indent|]);
    } else {
      if j < |body| { assert body[j] in trail; }
      UnquotedStaysPlain(trail);
      ReadingOn(Plain, indent, core);
      ReadingOn(Plain, indent + core, trail);
    }
  }

  // Quoted values.

  /** How one character is spelled between quotes. */
  predicate Piece(t: string, c: char) {
    (t == [c] && c >= ' ' && c != '\"' && c != '\\') || (t == "\\\"" && c == '\"') || (t == "\\\\" && c == '\\') ||
    (t == "\\n" && c == '\n') || (t == "\\t" && c == '\t')
  }

  ghost predicate Spells(b: string, s: string) {
    if s == "" then b == "" else exists t :: Piece(t, s[0]) && t <= b && Spells(b[|t|..], s[1..])
  }

  lemma PieceReads(b: string, t: string, c: char)
    requires Piece(t, c) && t <= b
    ensures Unescape(b) == Before([c], Unescape(b[|t|..])) && b != ""
  {
  }

  lemma FirstPiece(b: string) returns (t: string, c: char)
    requires b != "" && Unescape(b).Some?
    ensures Piece(t, c) && t <= b
  {
    if b[0] == '\\' {
      t, c := b[..2], Meant(b[1]).value;
    } else {
      t, c := [b[0]], b[0];
    }
  }

  /** Text between quotes is read exactly as it is spelled, and what spells nothing is refused. */
  lemma {:induction false} UnescapedExactlyWhenSpelled(b: string, s: string)
    ensures Unescape(b) == Some(s) <==> Spells(b, s)
    decreases |s|, |b|
  {
    if s != "" && Spells(b, s) {
      hide Unescape, Piece;
      var t :| Piece(t, s[0]) && t <= b && Spells(b[|t|..], s[1..]);
      PieceReads(b, t, s[0]);
      UnescapedExactlyWhenSpelled(b[|t|..], s[1..]);
      assert [s[0]] + s[1..] == s;
    } else if Unescape(b) == Some(s) && b != "" {
      hide Unescape, Piece;
      var t, c := FirstPiece(b);
      PieceReads(b, t, c);
      UnescapedExactlyWhenSpelled(b[|t|..], s[1..]);
    }
  }
}
