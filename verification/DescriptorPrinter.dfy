/** Writing descriptors: what a printed descriptor means to the parser. */
module DescriptorPrinter {
  import opened Common
  import opened DescriptorText
  import opened DescriptorNames
  import opened ResPaths
  import opened Descriptor

  /** The free choices of one line: blanks around its pieces and a trailing comment. */
  datatype Style = Style(indent: string, beforeEq: string, afterEq: string, trail: string, comment: string)

  predicate Spacing(s: string) { forall c :: c in s ==> Space(c) && c != '\n' }

  predicate Comment(s: string) { s == "" || (s[0] in COMMENT_MARKS && '\n' !in s) }

  predicate StyleOk(st: Style) {
    Spacing(st.indent) && Spacing(st.beforeEq) && Spacing(st.afterEq) && Spacing(st.trail) && Comment(st.comment)
  }

  function Head(key: string, st: Style): string { key + st.beforeEq + "=" + st.afterEq }

  function QuotedText(value: string): string { "\"" + Escape(value) + "\"" }

  function AssignmentLine(key: string, value: string, st: Style): string {
    st.indent + (Head(key, st) + QuotedText(value)) + st.trail + st.comment
  }

  function SectionLine(name: string, st: Style): string { st.indent + ("[" + name + "]") + st.trail + st.comment }

  /** A key or section name that prints as itself. */
  predicate Bare(s: string) { s != "" && forall c :: c in s ==> WordChar(c) || c == '.' }

  // Where a printed line stops.

  predicate Free(s: string, stops: set<char>) { '\"' !in s && forall c :: c in s ==> c !in stops }

  lemma StopAfterFree(a: string, rest: string, stops: set<char>)
    requires Free(a, stops) && (rest == "" || rest[0] in stops)
    ensures Stop(a + rest, 0, stops) == |a|
  {
    hide Reading, Stop;
    var v := a + rest;
    assert v[..|a|] == a;
    UnquotedStaysPlain(a);
    forall j: nat | j < |a| ensures !StopsAt(v, j, stops) { assert v[j] in a; }
    StopIsFirst(v, 0, |a|, stops);
  }

  lemma ReadingQuoted(head: string, s: string, k: nat)
    requires '\"' !in head && k <= |Escape(s)|
    ensures !Reading(Plain, head + "\"" + Escape(s)[..k]).Plain?
    ensures k == |Escape(s)| ==> Reading(Plain, head + "\"" + Escape(s)[..k]).Quoted?
  {
    UnquotedStaysPlain(head);
    ReadingOn(Plain, head, "\"");
    assert Reading(Plain, "\"") == Next(Plain, '\"');
    ReadingOn(Plain, head + "\"", Escape(s)[..k]);
    EscapedStaysQuoted(s, k);
  }

  lemma ReadingOne(m: Mode)
    ensures m.Quoted? ==> Reading(m, "\"").Plain?
  {
  }

  lemma ReadingClosed(head: string, s: string, tail: string)
    requires '\"' !in head && '\"' !in tail
    ensures Reading(Plain, head + QuotedText(s) + tail).Plain?
  {
    hide Reading, Escape, Next;
    var e := Escape(s);
    ReadingQuoted(head, s, |e|);
    assert e[..|e|] == e;
    var m := Reading(Plain, head + "\"" + e);
    ReadingOn(Plain, head + "\"" + e, "\"");
    ReadingOne(m);
    assert head + QuotedText(s) == head + "\"" + e + "\"";
    ReadingOn(Plain, head + QuotedText(s), tail);
    UnquotedStaysPlain(tail);
  }

  lemma StopAfterQuoted(head: string, s: string, tail: string, rest: string, stops: set<char>)
    requires Free(head, stops) && Free(tail, stops) && '\"' !in stops && (rest == "" || rest[0] in stops)
    ensures Stop(head + QuotedText(s) + tail + rest, 0, stops) == |head + QuotedText(s) + tail|
  {
    hide Reading, Stop, Escape;
    var body, v := head + QuotedText(s) + tail, head + QuotedText(s) + tail + rest;
    ReadingClosed(head, s, tail);
    assert v[..|body|] == body;
    forall j: nat | j < |body| ensures !StopsAt(v, j, stops) {
      InsideNoStop(head, s, tail, rest, stops, j);
    }
    StopIsFirst(v, 0, |body|, stops);
  }

  lemma InsideNoStop(head: string, s: string, tail: string, rest: string, stops: set<char>, j: nat)
    requires Free(head, stops) && Free(tail, stops) && '\"' !in stops && j < |head + QuotedText(s) + tail|
    ensures !StopsAt(head + QuotedText(s) + tail + rest, j, stops)
  {
    hide Reading, Escape;
    var v, e := head + QuotedText(s) + tail + rest, Escape(s);
    if j < |head| {
      assert v[j] in head;
    } else if j == |head| {
      assert v[j] == '\"';
    } else if j <= |head| + 1 + |e| {
      var k := j - |head| - 1;
      ReadingQuoted(head, s, k);
      assert v[..j] == head + "\"" + e[..k];
    } else {
      assert v[j] in tail;
    }
  }

  // What a printed line reads as.

  /** Dropping a final carriage return leaves a line of the same shape. */
  lemma ReturnIsDropped(body: string, trail: string, comment: string) returns (trail': string, comment': string)
    requires body != "" && body[|body| - 1] != '\r' && Spacing(trail) && Comment(comment)
    ensures DropReturn(body + trail + comment) == body + trail' + comment'
    ensures Spacing(trail') && Comment(comment')
  {
    trail', comment' := trail, comment;
    var line := body + trail + comment;
    if comment != "" {
      if comment[|comment| - 1] == '\r' {
        comment' := comment[..|comment| - 1];
        assert line[..|line| - 1] == body + trail + comment';
      }
    } else if trail != "" {
      if trail[|trail| - 1] == '\r' {
        trail' := trail[..|trail| - 1];
        assert line[..|line| - 1] == body + trail';
        assert body + trail' == body + trail' + comment';
      }
    } else {
      assert line == body;
    }
  }

  lemma SpacingIsFree(s: string, stops: set<char>)
    requires Spacing(s) && stops <= {';', '#', '='}
    ensures Free(s, stops) && Blank(s)
  {
  }

  lemma BareIsFree(s: string, stops: set<char>)
    requires Bare(s) && stops <= {';', '#', '='}
    ensures s != "" && Free(s, stops) && !Space(s[0]) && !Space(s[|s| - 1]) && s[0] != '['
  {
    assert s[0] in s && s[|s| - 1] in s;
  }

  lemma FreeJoins(a: string, b: string, stops: set<char>)
    requires Free(a, stops) && Free(b, stops)
    ensures Free(a + b, stops)
  {
  }

  lemma HeadIsFree(key: string, st: Style)
    requires Bare(key) && StyleOk(st)
    ensures Free(st.indent + Head(key, st), COMMENT_MARKS)
    ensures Free(key + st.beforeEq, {'='})
  {
    hide Free, Bare, Spacing;
    BareIsFree(key, COMMENT_MARKS);
    BareIsFree(key, {'='});
    SpacingIsFree(st.indent, COMMENT_MARKS);
    SpacingIsFree(st.beforeEq, COMMENT_MARKS);
    SpacingIsFree(st.beforeEq, {'='});
    SpacingIsFree(st.afterEq, COMMENT_MARKS);
    EqualsIsFree();
    FreeJoins(key, st.beforeEq, COMMENT_MARKS);
    FreeJoins(key, st.beforeEq, {'='});
    FreeJoins(key + st.beforeEq, "=", COMMENT_MARKS);
    FreeJoins(key + st.beforeEq + "=", st.afterEq, COMMENT_MARKS);
    FreeJoins(st.indent, Head(key, st), COMMENT_MARKS);
  }

  lemma EqualsIsFree()
    ensures Free("=", COMMENT_MARKS)
  {
  }

  lemma AssignmentIsClean(key: string, value: string, st: Style)
    requires Bare(key) && StyleOk(st)
    ensures Clean(AssignmentLine(key, value, st)) == Head(key, st) + QuotedText(value)
  {
    hide Free, Stop, Escape, Trimmed, Spacing, Bare;
    var head, core := st.indent + Head(key, st), Head(key, st) + QuotedText(value);
    var body := st.indent + core;
    assert body[|body| - 1] == '\"';
    var trail, comment := ReturnIsDropped(body, st.trail, st.comment);
    HeadIsFree(key, st);
    SpacingIsFree(trail, COMMENT_MARKS);
    SpacingIsFree(st.indent, COMMENT_MARKS);
    assert body == head + QuotedText(value);
    StopAfterQuoted(head, value, trail, comment, COMMENT_MARKS);
    var v := body + trail + comment;
    assert v[..|body + trail|] == st.indent + core + trail;
    BareIsFree(key, {});
    assert core[0] == key[0] && core[|core| - 1] == '\"';
    TrimmedCore(st.indent, core, trail);
  }

  lemma SectionIsClean(name: string, st: Style)
    requires Bare(name) && StyleOk(st)
    ensures Clean(SectionLine(name, st)) == "[" + name + "]"
  {
    hide Free, Stop, Trimmed, Spacing, Bare;
    var core := "[" + name + "]";
    var body := st.indent + core;
    assert body[|body| - 1] == ']';
    var trail, comment := ReturnIsDropped(body, st.trail, st.comment);
    SpacingIsFree(trail, COMMENT_MARKS);
    SpacingIsFree(st.indent, COMMENT_MARKS);
    BareIsFree(name, COMMENT_MARKS);
    BracketsAreFree();
    FreeJoins("[", name, COMMENT_MARKS);
    FreeJoins("[" + name, "]", COMMENT_MARKS);
    FreeJoins(st.indent, core, COMMENT_MARKS);
    FreeJoins(body, trail, COMMENT_MARKS);
    StopAfterFree(body + trail, comment, COMMENT_MARKS);
    var v := body + trail + comment;
    assert v[..|body + trail|] == st.indent + core + trail;
    TrimmedCore(st.indent, core, trail);
  }

  lemma BracketsAreFree()
    ensures Free("[", COMMENT_MARKS) && Free("]", COMMENT_MARKS)
  {
  }

  lemma BareTrims(s: string, after: string)
    requires Bare(s) && Spacing(after)
    ensures Trimmed(s + after) == s
  {
    SpacingIsFree(after, {});
    BareIsFree(s, {});
    TrimmedCore("", s, after);
    assert "" + s + after == s + after;
  }

  lemma QuotedReads(before: string, value: string)
    requires Spacing(before) && Printable(value)
    ensures Unquoted(before + QuotedText(value)) == Some(value)
  {
    hide Escape, Unescape, Trimmed;
    var q := QuotedText(value);
    SpacingIsFree(before, {});
    TrimmedCore(before, q, "");
    assert before + q + "" == before + q;
    assert q[0] == '\"' && q[|q| - 1] == '\"' && q[1..|q| - 1] == Escape(value);
    EscapeRoundTrip(value);
  }

  /** A printed section header opens the section. */
  lemma SectionReads(p: Progress, name: string, st: Style, line: nat)
    requires Bare(name) && StyleOk(st)
    ensures ReadLine(p, SectionLine(name, st), line) == Fine(p.(section := name))
  {
    hide Clean, Trimmed, Bare, SectionLine;
    SectionIsClean(name, st);
    var clean := "[" + name + "]";
    BareIsFree(name, {});
    assert clean[0] == '[' && clean[|clean| - 1] == ']' && clean[1..|clean| - 1] == name;
    BareTrims(name, "");
    assert name + "" == name;
  }

  /** A printed assignment reads as its key and a value that unquotes to the printed one. */
  lemma AssignmentReads(p: Progress, key: string, value: string, st: Style, line: nat)
    requires Bare(key) && StyleOk(st) && Printable(value)
    requires p.section == "configuration" || p.section == "libraries"
    ensures var text := st.afterEq + QuotedText(value);
            Unquoted(text) == Some(value) &&
            ReadLine(p, AssignmentLine(key, value, st), line) ==
            if p.section == "configuration" then ReadSetting(p, key, text) else ReadLibrary(p, key, text, line)
  {
    hide Clean, Trimmed, Bare, AssignmentLine, Stop, ReadSetting, ReadLibrary, Unquoted, Escape;
    AssignmentIsClean(key, value, st);
    var clean, text := Head(key, st) + QuotedText(value), st.afterEq + QuotedText(value);
    BareIsFree(key, {});
    assert clean[0] == key[0];
    HeadIsFree(key, st);
    var left := key + st.beforeEq;
    assert clean == left + ("=" + text);
    StopAfterFree(left, "=" + text, {'='});
    assert clean[..|left|] == left && clean[|left| + 1..] == text;
    BareTrims(key, st.beforeEq);
    QuotedReads(st.afterEq, value);
  }

  // The optional settings.

  /** An assignment whose value needs no quotes. */
  function BareAssignmentLine(key: string, value: string, st: Style): string {
    st.indent + (Head(key, st) + value) + st.trail + st.comment
  }

  lemma BareAssignmentIsClean(key: string, value: string, st: Style)
    requires Bare(key) && Bare(value) && StyleOk(st)
    ensures Clean(BareAssignmentLine(key, value, st)) == Head(key, st) + value
  {
    hide Free, Stop, Trimmed, Spacing, Bare;
    var core := Head(key, st) + value;
    var body := st.indent + core;
    BareIsFree(value, COMMENT_MARKS);
    assert body[|body| - 1] == value[|value| - 1];
    var trail, comment := ReturnIsDropped(body, st.trail, st.comment);
    HeadIsFree(key, st);
    SpacingIsFree(trail, COMMENT_MARKS);
    SpacingIsFree(st.indent, COMMENT_MARKS);
    FreeJoins(st.indent + Head(key, st), value, COMMENT_MARKS);
    assert body == st.indent + Head(key, st) + value;
    FreeJoins(body, trail, COMMENT_MARKS);
    StopAfterFree(body + trail, comment, COMMENT_MARKS);
    var v := body + trail + comment;
    assert v[..|body + trail|] == st.indent + core + trail;
    BareIsFree(key, {});
    assert core[0] == key[0];
    TrimmedCore(st.indent, core, trail);
  }

  lemma BareAssignmentReads(p: Progress, key: string, value: string, st: Style, line: nat)
    requires Bare(key) && Bare(value) && StyleOk(st) && p.section == "configuration"
    ensures Trimmed(st.afterEq + value) == value
    ensures ReadLine(p, BareAssignmentLine(key, value, st), line) == ReadSetting(p, key, st.afterEq + value)
  {
    hide Clean, Trimmed, Bare, BareAssignmentLine, Stop, ReadSetting;
    BareAssignmentIsClean(key, value, st);
    var clean, text, left := Head(key, st) + value, st.afterEq + value, key + st.beforeEq;
    BareIsFree(key, {});
    BareIsFree(value, {});
    assert clean[0] == key[0];
    HeadIsFree(key, st);
    assert clean == left + ("=" + text);
    StopAfterFree(left, "=" + text, {'='});
    assert clean[..|left|] == left && clean[|left| + 1..] == text;
    BareTrims(key, st.beforeEq);
    SpacingIsFree(st.afterEq, {});
    TrimmedCore(st.afterEq, value, "");
    assert st.afterEq + value + "" == text;
  }

  function Flag(b: bool): string { if b then "true" else "false" }

  /** A printed reloadable flag reads back. */
  lemma ReloadableReads(p: Progress, b: bool, st: Style, line: nat)
    requires StyleOk(st) && p.section == "configuration"
    ensures ReadLine(p, BareAssignmentLine("reloadable", Flag(b), st), line) == Fine(p.(reloadable := Some(b)))
  {
    hide ReadLine, BareAssignmentLine, Trimmed, StyleOk;
    BareAssignmentReads(p, "reloadable", Flag(b), st, line);
  }

  /** A printed version from 4.1 on reads back. */
  lemma CompatibilityReads(p: Progress, version: string, st: Style, line: nat)
    requires StyleOk(st) && p.section == "configuration" && Compatible(version)
    ensures ReadLine(p, AssignmentLine("compatibility_minimum", version, st), line) == Fine(p.(compatibility := Some(version)))
  {
    hide ReadLine, AssignmentLine, Unquoted, QuotedText, StyleOk, Printable, Compatible;
    CompatibleIsPrintable(version);
    AssignmentReads(p, "compatibility_minimum", version, st, line);
  }

  lemma CompatibleIsPrintable(version: string)
    requires Compatible(version)
    ensures Printable(version)
  {
    hide Split, Decimal, Component;
    forall c | c in version ensures c >= ' ' {
      if c != '.' { var g := PartWith(version, {'.'}, c); }
    }
  }
}
