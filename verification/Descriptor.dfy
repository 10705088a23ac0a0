/** The GDExtension descriptor parser (src/core/gdextension.cpp:411-432). */
module Descriptor {
  import opened Common
  import opened DescriptorText
  import opened DescriptorNames
  import opened ResPaths
  import Utf8

  const DESCRIPTOR_LIMIT := 4 * 1024 * 1024

  datatype Library = Library(key: string, path: string, line: nat)

  /** What has been read so far. */
  datatype Progress = Progress(
    section: string,
    entry: Option<string>,
    compatibility: Option<string>,
    reloadable: Option<bool>,
    libraries: seq<Library>)

  datatype Problem =
    | NotText | MalformedSection | EmptySection | NoAssignment | EmptyKey
    | BadEntry | BadCompatibility | BadReloadable | BadLibrary | NoEntry | NoLibraries

  /** The result record: `error` is None exactly for a valid descriptor; line 0 means no particular line. */
  datatype Outcome = Outcome(progress: Progress, error: Option<Problem>, line: nat)

  datatype LineResult = Fine(progress: Progress) | Bad(problem: Problem)

  const START := Progress("", None, None, None, [])

  const COMMENT_MARKS: set<char> := {';', '#'}

  function DropReturn(raw: string): string {
    if raw != "" && raw[|raw| - 1] == '\r' then raw[..|raw| - 1] else raw
  }

  function Clean(raw: string): string {
    var v := DropReturn(raw);
    Trimmed(v[..Stop(v, 0, COMMENT_MARKS)])
  }

  predicate HasKey(libraries: seq<Library>, key: string) { exists l :: l in libraries && l.key == key }

  function ReadSection(p: Progress, clean: string): LineResult
    requires clean != ""
  {
    if |clean| < 3 || clean[|clean| - 1] != ']' then Bad(MalformedSection)
    else
      var name := Trimmed(clean[1..|clean| - 1]);
      if name == "" then Bad(EmptySection) else Fine(p.(section := name))
  }

  function ReadSetting(p: Progress, key: string, value: string): LineResult {
    if key == "entry_symbol" then
      var v := Unquoted(value);
      if p.entry.Some? || v.None? || !ValidSymbol(v.value) then Bad(BadEntry) else Fine(p.(entry := v))
    else if key == "compatibility_minimum" then
      var v := CompatibilityValue(value);
      if v.None? then Bad(BadCompatibility) else Fine(p.(compatibility := v))
    else if key == "reloadable" then
      var t := Trimmed(value);
      if t != "true" && t != "false" then Bad(BadReloadable) else Fine(p.(reloadable := Some(t == "true")))
    else Fine(p)
  }

  function ReadLibrary(p: Progress, key: string, value: string, line: nat): LineResult {
    var path := Unquoted(value);
    if !FeatureKey(key) || path.None? || !Safe(path.value) || HasKey(p.libraries, key) then Bad(BadLibrary)
    else Fine(p.(libraries := p.libraries + [Library(key, path.value, line)]))
  }

  function ReadAssignment(p: Progress, clean: string, line: nat): LineResult {
    var eq := Stop(clean, 0, {'='});
    if eq == |clean| then Bad(NoAssignment)
    else
      var key, value := Trimmed(clean[..eq]), clean[eq + 1..];
      if key == "" then Bad(EmptyKey)
      else if p.section == "configuration" then ReadSetting(p, key, value)
      else ReadLibrary(p, key, value, line)
  }

  /** One line of the file. Sections other than the two known ones are passed over. */
  function ReadLine(p: Progress, raw: string, line: nat): LineResult {
    var clean := Clean(raw);
    if clean == "" then Fine(p)
    else if clean[0] == '[' then ReadSection(p, clean)
    else if p.section != "configuration" && p.section != "libraries" then Fine(p)
    else ReadAssignment(p, clean, line)
  }

  function Finished(p: Progress): Outcome {
    if p.entry.None? then Outcome(p, Some(NoEntry), 0)
    else if p.libraries == [] then Outcome(p, Some(NoLibraries), 0)
    else Outcome(p, None, 0)
  }

  /** The lines in order; the first problem ends the reading. */
  function ReadLines(p: Progress, lines: seq<string>, read: nat): Outcome
    decreases |lines|
  {
    if lines == [] then Finished(p)
    else
      match ReadLine(p, lines[0], read + 1)
      case Bad(problem) => Outcome(p, Some(problem), read + 1)
      case Fine(q) => ReadLines(q, lines[1..], read + 1)
  }

  function Chars(data: seq<u8>): (r: string)
    ensures |r| == |data| && forall i :: 0 <= i < |data| ==> r[i] as int == data[i]
  {
    seq(|data|, i requires 0 <= i < |data| => data[i] as char)
  }

  ghost predicate Readable(data: seq<u8>) { 0 < |data| <= 0x40_0000 && Utf8.IsText(data) }

  ghost function Meaning(data: seq<u8>): Outcome {
    if !Readable(data) then Outcome(START, Some(NotText), 0) else ReadLines(START, Split(Chars(data), {'\n'}), 0)
  }

  // The parser.

  method StripComment(v: string) returns (r: string)
    ensures r == v[..Stop(v, 0, COMMENT_MARKS)]
  {
    var k := FirstUnquoted(v, COMMENT_MARKS);
    r := v[..k];
  }

  method Find(text: string, c: char, from: nat) returns (k: nat)
    requires from <= |text|
    ensures from <= k <= |text| && c !in text[from..k] && (k < |text| ==> text[k] == c)
  {
    k := from;
    while k < |text| && text[k] != c
      invariant from <= k <= |text| && c !in text[from..k]
    {
      k := k + 1;
    }
  }

  method TakeSetting(p: Progress, key: string, value: string) returns (r: LineResult)
    ensures r == ReadSetting(p, key, value)
  {
    hide ValidSymbol, Unquoted, CompatibilityValue, Trimmed;
    if key == "entry_symbol" {
      var v := ParseQuoted(value);
      if p.entry.Some? || v.None? || !ValidSymbol(v.value) { return Bad(BadEntry); }
      return Fine(p.(entry := v));
    } else if key == "compatibility_minimum" {
      var v := ParseCompatibilityValue(value);
      if v.None? { return Bad(BadCompatibility); }
      return Fine(p.(compatibility := v));
    } else if key == "reloadable" {
      var t := Trim(value);
      if t != "true" && t != "false" { return Bad(BadReloadable); }
      return Fine(p.(reloadable := Some(t == "true")));
    }
    return Fine(p);
  }

  method TakeLibrary(p: Progress, keys: set<string>, key: string, value: string, line: nat)
    returns (r: LineResult, keys': set<string>)
    requires forall k :: k in keys <==> HasKey(p.libraries, k)
    ensures r == ReadLibrary(p, key, value, line)
    ensures r.Fine? ==> forall k :: k in keys' <==> HasKey(r.progress.libraries, k)
  {
    hide FeatureKey, Unquoted, Safe;
    keys' := keys;
    var keyOk := ValidFeatureKey(key);
    if !keyOk { return Bad(BadLibrary), keys; }
    var path := ParseQuoted(value);
    if path.None? { return Bad(BadLibrary), keys; }
    var safe := SafeResPath(path.value);
    if !safe || key in keys { return Bad(BadLibrary), keys; }
    keys' := keys + {key};
    var added := Library(key, path.value, line);
    r := Fine(p.(libraries := p.libraries + [added]));
    forall k ensures k in keys' <==> HasKey(p.libraries + [added], k) {
      assert added in p.libraries + [added];
      assert HasKey(p.libraries, k) ==> HasKey(p.libraries + [added], k);
    }
  }

  method TakeAssignment(p: Progress, keys: set<string>, clean: string, line: nat)
    returns (r: LineResult, keys': set<string>)
    requires forall k :: k in keys <==> HasKey(p.libraries, k)
    ensures r == ReadAssignment(p, clean, line)
    ensures r.Fine? ==> forall k :: k in keys' <==> HasKey(r.progress.libraries, k)
  {
    hide Stop, Trimmed, ReadLibrary, HasKey;
    keys' := keys;
    var eq := FirstUnquoted(clean, {'='});
    if eq == |clean| { return Bad(NoAssignment), keys; }
    var key := Trim(clean[..eq]);
    var value := clean[eq + 1..];
    if key == "" { return Bad(EmptyKey), keys; }
    if p.section == "configuration" {
      r := TakeSetting(p, key, value);
      SettingKeepsLibraries(p, key, value);
    } else {
      r, keys' := TakeLibrary(p, keys, key, value, line);
    }
  }

  lemma SettingKeepsLibraries(p: Progress, key: string, value: string)
    ensures ReadSetting(p, key, value).Fine? ==> ReadSetting(p, key, value).progress.libraries == p.libraries
  {
  }

  method TakeLine(p: Progress, keys: set<string>, raw: string, line: nat) returns (r: LineResult, keys': set<string>)
    requires forall k :: k in keys <==> HasKey(p.libraries, k)
    ensures r == ReadLine(p, raw, line)
    ensures r.Fine? ==> forall k :: k in keys' <==> HasKey(r.progress.libraries, k)
  {
    hide Stop, Trimmed, ReadAssignment, HasKey;
    keys' := keys;
    var v := raw;
    if v != "" && v[|v| - 1] == '\r' { v := v[..|v| - 1]; }
    var stripped := StripComment(v);
    var clean := Trim(stripped);
    if clean == "" { return Fine(p), keys; }
    if clean[0] == '[' {
      if |clean| < 3 || clean[|clean| - 1] != ']' { return Bad(MalformedSection), keys; }
      var name := Trim(clean[1..|clean| - 1]);
      if name == "" { return Bad(EmptySection), keys; }
      return Fine(p.(section := name)), keys;
    }
    if p.section != "configuration" && p.section != "libraries" { return Fine(p), keys; }
    r, keys' := TakeAssignment(p, keys, clean, line);
  }

  method ParseDescriptor(data: seq<u8>) returns (out: Outcome)
    ensures out == Meaning(data)
  {
    var isText := Utf8.ValidUtf8(data);
    if data == [] || |data| > DESCRIPTOR_LIMIT || !isText {
      return Outcome(START, Some(NotText), 0);
    }
    var text := Chars(data);
    var p, keys: set<string>, lineNo, pos := START, {}, 0, 0;
    assert text[0..] == text;
    while pos <= |text|
      invariant pos <= |text| ==> ReadLines(p, Split(text[pos..], {'\n'}), lineNo) == Meaning(data)
      invariant pos > |text| ==> Finished(p) == Meaning(data)
      invariant forall k :: k in keys <==> HasKey(p.libraries, k)
      decreases |text| + 1 - pos
    {
      hide ReadLine, Split, HasKey, Finished, Meaning;
      var end := Find(text, '\n', pos);
      FirstLine(text, pos, end);
      ghost var lines := Split(text[pos..], {'\n'});
      lineNo := lineNo + 1;
      var r, more := TakeLine(p, keys, text[pos..end], lineNo);
      match r
      case Bad(problem) => return Outcome(p, Some(problem), lineNo);
      case Fine(q) =>
        p, keys := q, more;
        assert end == |text| ==> lines[1..] == [];
        pos := if end == |text| then |text| + 1 else end + 1;
    }
    out := Finished(p);
  }

  lemma FirstLine(text: string, pos: nat, end: nat)
    requires pos <= end <= |text| && '\n' !in text[pos..end] && (end < |text| ==> text[end] == '\n')
    ensures Split(text[pos..], {'\n'}) ==
            [text[pos..end]] + if end < |text| then Split(text[end + 1..], {'\n'}) else []
  {
    hide Split;
    SplitNowhere(text[pos..end], {'\n'});
    if end < |text| {
      SplitHere(text[pos..end], '\n', text[end + 1..], {'\n'});
      assert text[pos..] == text[pos..end] + ['\n'] + text[end + 1..];
    } else {
      assert text[pos..] == text[pos..end];
    }
  }

  // What every reading keeps.

  /** The symbol is valid; keys are valid and distinct, paths safe, and libraries stand on increasing lines. */
  ghost predicate Sound(p: Progress, read: nat) {
    (p.entry.Some? ==> ValidSymbol(p.entry.value)) &&
    (p.compatibility.Some? ==> Compatible(p.compatibility.value)) &&
    (forall i :: 0 <= i < |p.libraries| ==> LibraryOk(p.libraries[i], read)) &&
    forall i, j :: 0 <= i < j < |p.libraries| ==>
      p.libraries[i].key != p.libraries[j].key && p.libraries[i].line < p.libraries[j].line
  }

  ghost predicate LibraryOk(l: Library, read: nat) { FeatureKey(l.key) && Safe(l.path) && 1 <= l.line <= read }

  lemma LineKeepsSound(p: Progress, raw: string, read: nat)
    requires Sound(p, read) && ReadLine(p, raw, read + 1).Fine?
    ensures Sound(ReadLine(p, raw, read + 1).progress, read + 1)
  {
    hide Clean, Stop, Trimmed, ReadSetting, ReadLibrary, ReadSection, LibraryOk;
    forall i | 0 <= i < |p.libraries| ensures LibraryOk(p.libraries[i], read + 1) { OkLater(p.libraries[i], read); }
    var clean := Clean(raw);
    if clean != "" && clean[0] == '[' {
      SectionKeepsRest(p, clean);
    } else if clean != "" && (p.section == "configuration" || p.section == "libraries") {
      var eq := Stop(clean, 0, {'='});
      if eq < |clean| {
        SettingKeepsSound(p, Trimmed(clean[..eq]), clean[eq + 1..], read);
        LibraryKeepsSound(p, Trimmed(clean[..eq]), clean[eq + 1..], read);
      }
    }
  }

  lemma OkLater(l: Library, read: nat)
    requires LibraryOk(l, read)
    ensures LibraryOk(l, read + 1) && l.line <= read
  {
  }

  lemma SectionKeepsRest(p: Progress, clean: string)
    requires clean != ""
    ensures ReadSection(p, clean).Fine? ==>
      var q := ReadSection(p, clean).progress;
      q.entry == p.entry && q.compatibility == p.compatibility && q.libraries == p.libraries
  {
  }

  lemma SettingKeepsSound(p: Progress, key: string, value: string, read: nat)
    requires Sound(p, read + 1)
    ensures ReadSetting(p, key, value).Fine? ==> Sound(ReadSetting(p, key, value).progress, read + 1)
  {
    hide ValidSymbol, Compatible, LibraryOk, Unquoted, Trimmed;
  }

  lemma LibraryKeepsSound(p: Progress, key: string, value: string, read: nat)
    requires Sound(p, read)
    ensures ReadLibrary(p, key, value, read + 1).Fine? ==> Sound(ReadLibrary(p, key, value, read + 1).progress, read + 1)
  {
    hide ValidSymbol, Compatible, FeatureKey, Safe, Unquoted;
    if ReadLibrary(p, key, value, read + 1).Fine? {
      var q := ReadLibrary(p, key, value, read + 1).progress;
      forall i | 0 <= i < |p.libraries| ensures q.libraries[i] == p.libraries[i] && q.libraries[i].key != key {
        assert p.libraries[i] in p.libraries;
      }
    }
  }

  lemma {:induction false} ReadingIsSound(p: Progress, lines: seq<string>, read: nat)
    requires Sound(p, read)
    ensures Sound(ReadLines(p, lines, read).progress, read + |lines|)
    decreases |lines|
  {
    hide ReadLine, LibraryOk, Compatible, ValidSymbol;
    if lines == [] {
    } else if ReadLine(p, lines[0], read + 1).Fine? {
      LineKeepsSound(p, lines[0], read);
      ReadingIsSound(ReadLine(p, lines[0], read + 1).progress, lines[1..], read + 1);
    } else {
      SoundLater(p, read, read + |lines|);
    }
  }

  lemma SoundLater(p: Progress, read: nat, later: nat)
    requires Sound(p, read) && read <= later
    ensures Sound(p, later)
  {
    hide Compatible, ValidSymbol, FeatureKey, Safe;
  }

  /** Whatever bytes are accepted, the descriptor names one valid symbol and at least one library, and its keys are
      valid and distinct and its paths safe. */
  lemma AcceptedIsSound(data: seq<u8>)
    ensures var out := Meaning(data);
            out.error == None ==>
              Readable(data) && out.progress.entry.Some? && out.progress.libraries != [] &&
              Sound(out.progress, |Split(Chars(data), {'\n'})|)
  {
    if Readable(data) {
      hide ReadLine, LibraryOk, Compatible, ValidSymbol, Split, Readable;
      ReadingIsSound(START, Split(Chars(data), {'\n'}), 0);
      OnlyFinishedIsValid(START, Split(Chars(data), {'\n'}), 0);
    }
  }

  lemma {:induction false} OnlyFinishedIsValid(p: Progress, lines: seq<string>, read: nat)
    ensures var out := ReadLines(p, lines, read);
            out.error == None ==> out.progress.entry.Some? && out.progress.libraries != []
    decreases |lines|
  {
    hide ReadLine;
    if lines != [] && ReadLine(p, lines[0], read + 1).Fine? {
      OnlyFinishedIsValid(ReadLine(p, lines[0], read + 1).progress, lines[1..], read + 1);
    }
  }
}
