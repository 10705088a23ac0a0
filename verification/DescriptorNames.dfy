/** The names and versions of a descriptor (src/core/gdextension.cpp:77-110). */
module DescriptorNames {
  import opened Common
  import opened DescriptorText

  const KEY_LIMIT := 512

  predicate ValidSymbol(s: string) {
    s != "" && (Letter(s[0]) || s[0] == '_') && forall i :: 1 <= i < |s| ==> WordChar(s[i])
  }

  /** A symbol is a word that does not begin with a digit. */
  lemma SymbolIsWord(s: string)
    ensures ValidSymbol(s) <==> s != "" && (forall c :: c in s ==> WordChar(c)) && !Digit(s[0])
  {
    hide Letter, Digit;
    if s != "" {
      LettersAreNoDigits(s[0]);
      assert s[0] in s;
      assert forall i :: 1 <= i < |s| ==> s[i] in s;
    }
  }

  lemma LettersAreNoDigits(c: char)
    ensures (Letter(c) || c == '_') ==> !Digit(c)
  {
  }

  /** Dot-separated tokens, none of them empty. */
  predicate FeatureKey(s: string) {
    |s| <= 512 && (forall c :: c in s ==> c == '.' || WordChar(c)) && "" !in Split(s, {'.'})
  }

  /** The finished tokens of a key under way. */
  ghost predicate Spelling(s: string, i: nat, done: seq<string>, part: string) {
    i <= |s| && Split(s[..i], {'.'}) == done + [part] && "" !in done && forall c :: c in s[..i] ==> c == '.' || WordChar(c)
  }

  lemma SpellingGoesOn(s: string, i: nat, done: seq<string>, part: string)
    requires Spelling(s, i, done, part) && i < |s|
    ensures s[i] == '.' && part != "" ==> Spelling(s, i + 1, done + [part], "")
    ensures s[i] != '.' && WordChar(s[i]) ==> Spelling(s, i + 1, done, part + [s[i]])
  {
    hide Split, WordChar;
    SplitStep(s, i, {'.'}, done, part);
    assert done + [part, ""] == done + [part] + [""];
    assert s[..i + 1] == s[..i] + [s[i]];
  }

  lemma SpellingEnds(s: string, i: nat, done: seq<string>, part: string)
    requires Spelling(s, i, done, part) && |s| <= KEY_LIMIT
    ensures i == |s| ==> FeatureKey(s) == (part != "")
    ensures i < |s| && (if s[i] == '.' then part == "" else !WordChar(s[i])) ==> !FeatureKey(s)
  {
    hide Split, WordChar;
    if i == |s| {
      assert s[..i] == s;
      assert (done + [part])[|done|] == part;
    } else if s[i] == '.' {
      EndedPart(s, i, done, part);
    } else {
      assert s[i] in s;
    }
  }

  method ValidFeatureKey(s: string) returns (ok: bool)
    ensures ok == FeatureKey(s)
  {
    if s == "" || |s| > KEY_LIMIT {
      assert "" in Split("", {'.'});
      return false;
    }
    var token := false;
    ghost var done, part := [], "";
    assert s[..0] == "";
    for i := 0 to |s|
      invariant Spelling(s, i, done, part) && token == (part != "")
    {
      hide Spelling, FeatureKey, WordChar;
      SpellingEnds(s, i, done, part);
      SpellingGoesOn(s, i, done, part);
      if s[i] == '.' {
        if !token { return false; }
        done, part, token := done + [part], "", false;
      } else {
        if !WordChar(s[i]) { return false; }
        part, token := part + [s[i]], true;
      }
    }
    SpellingEnds(s, |s|, done, part);
    return token;
  }

  /** A part ended by a dot, or by the end, is a part of the whole. */
  lemma EndedPart(s: string, k: nat, done: seq<string>, part: string)
    requires k <= |s| && Split(s[..k], {'.'}) == done + [part] && (k < |s| ==> s[k] == '.')
    ensures part in Split(s, {'.'}) && |Split(s, {'.'})| >= |done| + 1
    ensures k < |s| ==> |Split(s, {'.'})| >= |done| + 2
    ensures forall j :: 0 <= j < |done| ==> Split(s, {'.'})[j] == done[j]
  {
    hide Split;
    assert (done + [part])[|done|] == part;
    if k == |s| {
      assert s[..k] == s;
    } else {
      SplitHere(s[..k], '.', s[k + 1..], {'.'});
      assert s == s[..k] + ['.'] + s[k + 1..];
    }
  }

  // Versions.

  function Decimal(g: string): (n: nat) {
    if g == "" then 0 else 10 * Decimal(g[..|g| - 1]) + (if Digit(g[|g| - 1]) then g[|g| - 1] as int - '0' as int else 0)
  }

  predicate Group(g: string) { 1 <= |g| <= 4 && forall c :: c in g ==> Digit(c) }

  function Component(t: string, k: nat): nat {
    var groups := Split(t, {'.'});
    if k < |groups| then Decimal(groups[k]) else 0
  }

  /** One to three groups of one to four digits, and at least version 4.1. */
  predicate Compatible(t: string) {
    |t| <= 32 && |Split(t, {'.'})| <= 3 && (forall g :: g in Split(t, {'.'}) ==> Group(g)) &&
    (Component(t, 0) > 4 || (Component(t, 0) == 4 && Component(t, 1) >= 1))
  }

  /** A quoted value, or the trimmed text when it is not one. */
  function Loose(value: string): string {
    if Unquoted(value).Some? then Unquoted(value).value else Trimmed(value)
  }

  function CompatibilityValue(value: string): Option<string> {
    if Compatible(Loose(value)) then Some(Loose(value)) else None
  }

  method ParseCompatibilityValue(value: string) returns (r: Option<string>)
    ensures r == CompatibilityValue(value)
  {
    var quoted := ParseQuoted(value);
    var t;
    if quoted.Some? { t := quoted.value; } else { t := Trim(value); }
    var ok := CompatibleVersion(t);
    return if ok then Some(t) else None;
  }

  /** The finished groups of a version under way. */
  ghost predicate Counting(t: string, i: nat, done: seq<string>, part: string, version: seq<nat>) {
    i <= |t| && Split(t[..i], {'.'}) == done + [part] && |done| <= 2 && |version| == 3 &&
    |part| <= 4 && (forall c :: c in part ==> Digit(c)) && (forall g :: g in done ==> Group(g)) &&
    forall k :: 0 <= k < 3 ==> version[k] == if k < |done| then Decimal(done[k]) else 0
  }

  method CompatibleVersion(t: string) returns (ok: bool)
    ensures ok == Compatible(t)
  {
    if t == "" || |t| > 32 {
      assert "" in Split("", {'.'});
      return false;
    }
    var version := new nat[3](_ => 0);
    var part, digits, current := 0, 0, 0;
    ghost var done, text := [], "";
    assert t[..0] == "";
    for i := 0 to |t|
      invariant Counting(t, i, done, text, version[..])
      invariant part == |done| && digits == |text| && current == Decimal(text)
    {
      hide Split, Decimal, Compatible;
      if t[i] == '.' {
        if digits == 0 || part >= 2 {
          BadGroup(t, i, done, text, version[..]);
          return false;
        }
        NextGroup(t, i, done, text, version[..]);
        version[part] := current;
        part, current, digits := part + 1, 0, 0;
        done, text := done + [text], "";
      } else {
        if !Digit(t[i]) || digits + 1 > 4 {
          LongGroup(t, i, done, text, version[..]);
          return false;
        }
        NextDigit(t, i, done, text, version[..]);
        digits := digits + 1;
        current := current * 10 + (t[i] as int - '0' as int);
        text := text + [t[i]];
      }
    }
    if digits == 0 {
      BadGroup(t, |t|, done, text, version[..]);
      return false;
    }
    version[part] := current;
    AllGroups(t, done, text, version[..]);
    return !(version[0] < 4 || (version[0] == 4 && version[1] < 1));
  }

  lemma BadGroup(t: string, i: nat, done: seq<string>, part: string, version: seq<nat>)
    requires Counting(t, i, done, part, version) && (i < |t| ==> t[i] == '.')
    requires part == "" || (i < |t| && |done| >= 2)
    ensures !Compatible(t)
  {
    hide Decimal, Component;
    EndedPart(t, i, done, part);
  }

  lemma LongGroup(t: string, i: nat, done: seq<string>, part: string, version: seq<nat>)
    requires Counting(t, i, done, part, version) && i < |t| && t[i] != '.' && (!Digit(t[i]) || |part| >= 4)
    ensures !Compatible(t)
  {
    hide Decimal, Component, Split, Digit;
    SplitStep(t, i, {'.'}, done, part);
    var longer := part + [t[i]];
    assert longer[|part|] == t[i] && t[i] in longer;
    Starts(t, i + 1, done, longer);
    var g := Split(t, {'.'})[|done|];
    assert g in Split(t, {'.'});
    assert longer <= g;
    assert g[|part|] == t[i];
  }

  /** The part under way begins a part of the whole. */
  lemma {:induction false} Starts(t: string, i: nat, done: seq<string>, part: string)
    requires i <= |t| && Split(t[..i], {'.'}) == done + [part]
    ensures |Split(t, {'.'})| > |done| && part <= Split(t, {'.'})[|done|]
    decreases |t| - i
  {
    hide Split;
    if i == |t| {
      assert t[..i] == t;
    } else if t[i] == '.' {
      EndedPart(t, i, done, part);
      SplitHere(t[..i], '.', t[i + 1..], {'.'});
      assert t == t[..i] + ['.'] + t[i + 1..];
    } else {
      SplitStep(t, i, {'.'}, done, part);
      Starts(t, i + 1, done, part + [t[i]]);
    }
  }

  lemma NextGroup(t: string, i: nat, done: seq<string>, part: string, version: seq<nat>)
    requires Counting(t, i, done, part, version) && i < |t| && t[i] == '.' && part != "" && |done| < 2
    ensures Counting(t, i + 1, done + [part], "", version[|done| := Decimal(part)])
  {
    hide Decimal, Split;
    SplitStep(t, i, {'.'}, done, part);
    assert done + [part, ""] == done + [part] + [""];
  }

  lemma NextDigit(t: string, i: nat, done: seq<string>, part: string, version: seq<nat>)
    requires Counting(t, i, done, part, version) && i < |t| && Digit(t[i]) && |part| < 4
    ensures Counting(t, i + 1, done, part + [t[i]], version)
    ensures Decimal(part + [t[i]]) == Decimal(part) * 10 + (t[i] as int - '0' as int)
  {
    hide Split;
    SplitStep(t, i, {'.'}, done, part);
    assert (part + [t[i]])[..|part|] == part;
  }

  lemma AllGroups(t: string, done: seq<string>, part: string, version: seq<nat>)
    requires |version| == 3 && |done| <= 2 && |t| <= 32 && part != ""
    requires Counting(t, |t|, done, part, version[|done| := 0]) && version[|done|] == Decimal(part)
    ensures Compatible(t) == !(version[0] < 4 || (version[0] == 4 && version[1] < 1))
  {
    hide Decimal;
    assert t[..|t|] == t;
    var groups := Split(t, {'.'});
    assert groups == done + [part];
    assert Component(t, 0) == version[0];
    assert Component(t, 1) == version[1] by {
      if |done| == 0 {
        assert version[|done| := 0][1] == 0;
      }
    }
  }

  /** A version of two numbers is accepted exactly from 4.1 on, and a single number exactly from 5 on. */
  lemma VersionsFromFourOne(major: string, minor: string)
    requires Group(major) && Group(minor)
    ensures Compatible(major + "." + minor) <==> Decimal(major) > 4 || (Decimal(major) == 4 && Decimal(minor) >= 1)
    ensures Compatible(major) <==> Decimal(major) > 4
  {
    hide Decimal, Split, Group;
    SplitGroup(major);
    SplitGroup(minor);
    SplitHere(major, '.', minor, {'.'});
    var t := major + ['.'] + minor;
    assert t == major + "." + minor;
    var groups := [major, minor];
    assert Split(t, {'.'}) == groups;
    assert groups[0] == major && groups[1] == minor;
  }

  lemma SplitGroup(g: string)
    requires Group(g)
    ensures Split(g, {'.'}) == [g] && |g| <= 4
  {
    hide Split;
    SplitNowhere(g, {'.'});
  }
}
