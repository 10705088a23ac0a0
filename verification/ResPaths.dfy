/** Godot resource paths (src/core/gdextension.cpp): `safe_res_path` and `normalize_res_path`. */
module ResPaths {
  import opened Common
  import opened DescriptorText

  const PATH_LIMIT := 0x10_0000

  const SEPARATORS: set<char> := {'/', '\\'}

  predicate StartsRes(s: string) { |s| >= 6 && s[..6] == "res://" }

  predicate PartOk(p: string) { p != "" && p != "." && p != ".." }

  predicate CharOk(c: char) { c >= ' ' && c != ':' }

  /** Every component names something, and no character is a colon or a control character. */
  predicate GoodPath(rest: string) {
    (forall p :: p in Split(rest, SEPARATORS) ==> PartOk(p)) && forall c :: c in rest ==> CharOk(c)
  }

  predicate Safe(s: string) { StartsRes(s) && 6 < |s| <= 0x10_0000 && GoodPath(s[6..]) }

  function Rest(input: string): string { if StartsRes(input) then input[6..] else input }

  /** One spelling for both separators. */
  function Unify(s: string): (r: string)
    ensures |r| == |s| && forall i :: 0 <= i < |s| ==> r[i] == if s[i] == '\\' then '/' else s[i]
  {
    seq(|s|, i requires 0 <= i < |s| => if s[i] == '\\' then '/' else s[i])
  }

  function Normalized(input: string): Option<string> {
    if |input| <= 0x10_0000 && GoodPath(Rest(input)) then Some("res://" + Unify(Rest(input))) else None
  }

  /** The first k characters are read: the finished components are good and the last one is under way. */
  ghost predicate Walked(rest: string, k: nat, done: seq<string>, part: string) {
    k <= |rest| && Split(rest[..k], SEPARATORS) == done + [part] &&
    (forall p :: p in done ==> PartOk(p)) && forall c :: c in rest[..k] ==> CharOk(c)
  }

  lemma WalkStarts(rest: string)
    ensures Walked(rest, 0, [], "")
  {
    assert rest[..0] == "";
  }

  lemma WalkGoesOn(rest: string, k: nat, done: seq<string>, part: string)
    requires Walked(rest, k, done, part) && k < |rest| && CharOk(rest[k])
    ensures rest[k] !in SEPARATORS ==> Walked(rest, k + 1, done, part + [rest[k]])
    ensures rest[k] in SEPARATORS && PartOk(part) ==> Walked(rest, k + 1, done + [part], "")
  {
    hide Split, PartOk;
    SplitStep(rest, k, SEPARATORS, done, part);
    assert done + [part, ""] == done + [part] + [""];
    assert rest[..k + 1] == rest[..k] + [rest[k]];
  }

  /** A component that ends here is a component of the whole path. */
  lemma BadPart(rest: string, k: nat, done: seq<string>, part: string)
    requires Walked(rest, k, done, part) && !PartOk(part) && (k == |rest| || rest[k] in SEPARATORS)
    ensures !GoodPath(rest)
  {
    hide Split, PartOk;
    assert (done + [part])[|done|] == part;
    if k == |rest| {
      assert rest[..k] == rest;
    } else {
      SplitHere(rest[..k], rest[k], rest[k + 1..], SEPARATORS);
      assert rest == rest[..k] + [rest[k]] + rest[k + 1..];
      assert part in Split(rest[..k], SEPARATORS);
    }
  }

  lemma BadChar(rest: string, k: nat)
    requires k < |rest| && !CharOk(rest[k])
    ensures !GoodPath(rest)
  {
    assert rest[k] in rest;
  }

  lemma WalkEnds(rest: string, done: seq<string>, part: string)
    requires Walked(rest, |rest|, done, part) && PartOk(part)
    ensures GoodPath(rest)
  {
    hide Split, PartOk;
    assert rest[..|rest|] == rest;
  }

  method SafeResPath(s: string) returns (ok: bool)
    ensures ok == Safe(s)
  {
    if !StartsRes(s) || |s| <= 6 || |s| > PATH_LIMIT {
      return false;
    }
    hide Walked, GoodPath, Split;
    ghost var rest, done := s[6..], [];
    var part := "";
    WalkStarts(rest);
    for i := 6 to |s| + 1
      invariant if i <= |s| then Walked(rest, i - 6, done, part) else GoodPath(rest)
    {
      if i == |s| || s[i] == '/' || s[i] == '\\' {
        if part == "" || part == "." || part == ".." {
          BadPart(rest, i - 6, done, part);
          return false;
        }
        if i == |s| { WalkEnds(rest, done, part); } else { WalkGoesOn(rest, i - 6, done, part); }
        done := done + [part];
        part := "";
      } else {
        if s[i] < ' ' || s[i] == ':' {
          BadChar(rest, i - 6);
          return false;
        }
        WalkGoesOn(rest, i - 6, done, part);
        part := part + [s[i]];
      }
    }
    return true;
  }

  method NormalizeResPath(input: string) returns (r: Option<string>)
    ensures r == Normalized(input)
  {
    hide Walked, GoodPath, Split, Unify;
    if input == "" || |input| > PATH_LIMIT {
      NotEmpty(input);
      return None;
    }
    var rest := if StartsRes(input) then input[6..] else input;
    WalkStarts(rest);
    if rest == "" || rest[0] == '/' || rest[0] == '\\' {
      BadPart(rest, 0, [], "");
      return None;
    }
    var out, part, first := "res://", "", true;
    ghost var done := [];
    for i := 0 to |rest| + 1
      invariant if i <= |rest| then Walked(rest, i, done, part) else GoodPath(rest)
      invariant if i <= |rest| then Joined(out, first, part) == "res://" + Unify(rest[..i]) else out == "res://" + Unify(rest)
    {
      if i == |rest| || rest[i] == '/' || rest[i] == '\\' {
        if part == "" || part == "." || part == ".." {
          BadPart(rest, i, done, part);
          return None;
        }
        if i == |rest| {
          WalkEnds(rest, done, part);
          assert rest[..i] == rest;
        } else {
          WalkGoesOn(rest, i, done, part);
          WritingGoesOn(out, first, part, rest, i);
        }
        out := Joined(out, first, part);
        done := done + [part];
        part, first := "", false;
      } else {
        if rest[i] < ' ' || rest[i] == ':' {
          BadChar(rest, i);
          return None;
        }
        WalkGoesOn(rest, i, done, part);
        WritingGoesOn(out, first, part, rest, i);
        part := part + [rest[i]];
      }
    }
    return Some(out);
  }

  function Joined(out: string, first: bool, part: string): string { (if first then out else out + "/") + part }

  /** What has been written grows with what has been read. */
  lemma WritingGoesOn(out: string, first: bool, part: string, s: string, i: nat)
    requires i < |s| && Joined(out, first, part) == "res://" + Unify(s[..i])
    ensures s[i] !in SEPARATORS ==> Joined(out, first, part + [s[i]]) == "res://" + Unify(s[..i + 1])
    ensures s[i] in SEPARATORS ==> Joined(Joined(out, first, part), false, "") == "res://" + Unify(s[..i + 1])
  {
    var c := if s[i] == '\\' then '/' else s[i];
    assert Unify(s[..i + 1]) == Unify(s[..i]) + [c];
    assert "res://" + (Unify(s[..i]) + [c]) == ("res://" + Unify(s[..i])) + [c];
    if s[i] in SEPARATORS {
      assert Joined(out, first, part) + "/" + "" == Joined(out, first, part) + [c];
    } else {
      assert Joined(out, first, part + [c]) == Joined(out, first, part) + [c];
    }
  }

  lemma {:induction false} UnifyKeepsParts(s: string)
    ensures Split(Unify(s), SEPARATORS) == Split(s, SEPARATORS)
  {
    if s != "" {
      var shorter := s[..|s| - 1];
      UnifyKeepsParts(shorter);
      assert Unify(s)[..|s| - 1] == Unify(shorter);
    }
  }

  lemma UnifyKeepsGoodness(s: string)
    ensures GoodPath(Unify(s)) == GoodPath(s)
  {
    UnifyKeepsParts(s);
    var u := Unify(s);
    if forall c :: c in s ==> CharOk(c) {
      forall c | c in u ensures CharOk(c) {
        var i :| 0 <= i < |u| && u[i] == c;
        assert s[i] in s;
      }
    } else {
      var c :| c in s && !CharOk(c);
      var i :| 0 <= i < |s| && s[i] == c;
      assert u[i] in u;
    }
  }

  lemma UnifyTwice(s: string)
    ensures Unify(Unify(s)) == Unify(s)
  {
  }

  /** The safe paths are exactly the normalisable paths that carry the prefix. */
  lemma SafeIsPrefixedAndNormalizable(s: string)
    ensures Safe(s) <==> StartsRes(s) && Normalized(s).Some?
  {
    if |s| == 6 && StartsRes(s) {
      assert s[6..] == "";
      assert "" in Split("", SEPARATORS);
    }
  }

  /** Normalising a safe path succeeds and only unifies its separators. */
  lemma SafeNormalizes(s: string)
    requires Safe(s)
    ensures Normalized(s).Some? && |Normalized(s).value| == |s|
    ensures forall i :: 0 <= i < |s| ==> Normalized(s).value[i] == if s[i] == '\\' then '/' else s[i]
    ensures Safe(Normalized(s).value)
  {
    NormalizedAgain(s);
  }

  /** A normalised path is safe, and normalising it changes nothing, unless the added prefix made it too long. */
  lemma NormalizedAgain(input: string)
    requires Normalized(input).Some?
    ensures var o := Normalized(input).value;
            Safe(o) == (StartsRes(input) || |input| <= 0x10_0000 - 6) &&
            Normalized(o) == if StartsRes(input) || |input| <= 0x10_0000 - 6 then Some(o) else None
  {
    hide Split, GoodPath;
    var rest := Rest(input);
    var o := "res://" + Unify(rest);
    assert o[..6] == "res://" && o[6..] == Unify(rest);
    UnifyKeepsGoodness(rest);
    UnifyTwice(rest);
    NotEmpty(rest);
  }

  lemma NotEmpty(rest: string)
    ensures GoodPath(rest) ==> rest != ""
  {
    assert "" in Split("", SEPARATORS);
  }

  /** Normalising is not idempotent: a bare path of full length grows past the limit. */
  lemma LongPathNormalizesOnce()
    ensures var w := seq(0x10_0000, _ => 'a');
            Normalized(w).Some? && Normalized(Normalized(w).value).None?
  {
    var w := seq(0x10_0000, _ => 'a');
    SplitNowhere(w, SEPARATORS);
    assert w[0] == 'a' && w[1] == 'a' && w[2] == 'a';
    assert !StartsRes(w) by { assert w[..6][0] == 'a'; }
    NormalizedAgain(w);
  }
}
