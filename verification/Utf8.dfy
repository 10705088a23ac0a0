/** The strict UTF-8 check (src/core/gdextension.cpp:29-44) against the encoding of RFC 3629, sections 3 and 4. */
module Utf8 {
  import opened Common
  import opened Bits

  /** Unicode scalar values except NUL. */
  predicate Scalar(c: nat) { 0 < c <= 0x10FFFF && !(0xD800 <= c <= 0xDFFF) }

  /** The shortest encoding of a code point, by the bit layout of the standard. */
  function Encode(c: nat): (r: seq<u8>)
    requires c <= 0x10FFFF
    ensures 1 <= |r| <= 4
  {
    if c < 0x80 then [c]
    else if c < 0x800 then [0xC0 + c / 0x40, 0x80 + c % 0x40]
    else if c < 0x10000 then [0xE0 + c / 0x1000, 0x80 + c / 0x40 % 0x40, 0x80 + c % 0x40]
    else [0xF0 + c / 0x40000, 0x80 + c / 0x1000 % 0x40, 0x80 + c / 0x40 % 0x40, 0x80 + c % 0x40]
  }

  ghost predicate Scalars(cs: seq<nat>) { forall i :: 0 <= i < |cs| ==> Scalar(cs[i]) }

  ghost function EncodeAll(cs: seq<nat>): seq<u8>
    requires Scalars(cs)
  {
    if cs == [] then [] else Encode(cs[0]) + EncodeAll(cs[1..])
  }

  /** A byte string is text when it encodes some list of non-zero scalar values. */
  ghost predicate IsText(s: seq<u8>) { exists cs :: Scalars(cs) && EncodeAll(cs) == s }

  predicate Continuation(b: u8) { b / 0x40 == 2 }

  /** How many continuation bytes the lead byte announces; 0 for a byte that cannot lead. */
  function Need(c: u8): (r: nat)
    ensures r <= 3
  {
    if c / 0x20 == 6 then 1 else if c / 0x10 == 0xE then 2 else if c / 8 == 0x1E then 3 else 0
  }

  /** The payload bits of the lead byte. */
  function Lead(c: u8): nat { if Need(c) == 1 then c % 0x20 else if Need(c) == 2 then c % 0x10 else c % 8 }

  /** The payload bits of the lead byte and the first n continuation bytes. */
  function Accumulated(s: seq<u8>, n: nat): nat
    requires n < |s|
  {
    if n == 0 then Lead(s[0]) else Accumulated(s, n - 1) * 0x40 + s[n] % 0x40
  }

  predicate Refused(c: u8, v: nat) {
    (Need(c) == 1 && c % 0x20 < 2) || (Need(c) == 2 && v < 0x800) || (Need(c) == 3 && v < 0x10000) ||
    v > 0x10FFFF || 0xD800 <= v <= 0xDFFF
  }

  /** Decode one character of the accepted form at the front of s: its value and length, or None. */
  function DecodeOne(s: seq<u8>): (r: Option<(nat, nat)>)
    requires s != []
    ensures r.Some? ==> 1 <= r.value.1 <= |s| && r.value.1 <= 4
  {
    if s[0] < 0x80 then (if s[0] == 0 then None else Some((s[0], 1)))
    else if Need(s[0]) == 0 || |s| <= Need(s[0]) || exists k :: 1 <= k <= Need(s[0]) && !Continuation(s[k]) then None
    else
      var v := Accumulated(s, Need(s[0]));
      if Refused(s[0], v) then None else Some((v, Need(s[0]) + 1))
  }

  ghost predicate Decodable(s: seq<u8>)
    decreases |s|
  {
    s == [] || (DecodeOne(s).Some? && Decodable(s[DecodeOne(s).value.1..]))
  }

  method ValidUtf8(s: seq<u8>) returns (ok: bool)
    ensures ok <==> IsText(s)
  {
    hide IsText, Decodable;
    DecodableIsText(s);
    ok := CheckCharacters(s);
  }

  /** The loop of the check: cursor, lead byte, continuation bytes, range tests. */
  method CheckCharacters(s: seq<u8>) returns (ok: bool)
    ensures ok <==> Decodable(s)
  {
    hide Refused, DecodeOne, Decodable;
    var i := 0;
    assert s[0..] == s;
    DecodableEnd();
    while i < |s|
      invariant i <= |s| && (Decodable(s) <==> Decodable(s[i..]))
    {
      ghost var rest := s[i..];
      DecodableStep(rest);
      var valid, size := ValidCharacter(s, i);
      if !valid { return false; }
      assert rest[size..] == s[i + size..];
      i := i + size;
    }
    assert s[i..] == [];
    return true;
  }

  lemma DecodableEnd()
    ensures Decodable([])
  {
  }

  /** The body of the loop: one character at the cursor. */
  method ValidCharacter(s: seq<u8>, at: nat) returns (valid: bool, size: nat)
    requires at < |s|
    ensures valid <==> DecodeOne(s[at..]).Some?
    ensures valid ==> size == DecodeOne(s[at..]).value.1
  {
    hide Refused, Or;
    ghost var rest := s[at..];
    var i, c := at, s[at];
    i := i + 1;
    if c < 0x80 { return c != 0, 1; }
    var cp: nat, need := 0, 0;
    if c / 0x20 == 6 { cp, need := c % 0x20, 1; }
    else if c / 0x10 == 0xE { cp, need := c % 0x10, 2; }
    else if c / 8 == 0x1E { cp, need := c % 8, 3; }
    else { return false, 0; }
    if need == 1 && cp < 2 {
      TooSmallLead(rest);
      return false, 0;
    }
    if i + need > |s| { return false, 0; }
    var n := 0;
    while n < need
      invariant 0 <= n <= need && i == at + 1 + n
      invariant forall k :: 1 <= k <= n ==> Continuation(rest[k])
      invariant cp == Accumulated(rest, n)
    {
      var d := s[i];
      assert d == rest[n + 1];
      i := i + 1;
      if !Continuation(d) { return false, 0; }
      PayloadFits(cp, d % 0x40);
      cp := Or(cp * 0x40, d % 0x40);
      n := n + 1;
    }
    RefusalRules(c, cp);
    if (need == 2 && cp < 0x800) || (need == 3 && cp < 0x10000) || cp > 0x10FFFF || 0xD800 <= cp <= 0xDFFF { return false, 0; }
    return true, need + 1;
  }

  lemma PayloadFits(cp: nat, bits: nat)
    requires bits < 0x40
    ensures Or(cp * 0x40, bits) == cp * 0x40 + bits
  {
    hide Or;
    assert Pow2(6) == 0x40;
    OrIsSum(bits, cp, 6);
  }

  lemma TooSmallLead(s: seq<u8>)
    requires s != [] && Need(s[0]) == 1 && s[0] % 0x20 < 2
    ensures DecodeOne(s).None?
  {
  }

  lemma RefusalRules(c: u8, v: nat)
    requires Need(c) > 1 || c % 0x20 >= 2
    ensures Refused(c, v) <==> (Need(c) == 2 && v < 0x800) || (Need(c) == 3 && v < 0x10000) || v > 0x10FFFF || 0xD800 <= v <= 0xDFFF
  {
  }

  lemma {:induction false} DecodableIsText(s: seq<u8>)
    ensures Decodable(s) <==> IsText(s)
  {
    if Decodable(s) { var cs := DecodeAll(s); }
    if cs :| Scalars(cs) && EncodeAll(cs) == s { TextIsDecodable(cs); }
  }

  lemma {:induction false} DecodeAll(s: seq<u8>) returns (cs: seq<nat>)
    requires Decodable(s)
    ensures Scalars(cs) && EncodeAll(cs) == s
    decreases |s|
  {
    if s == [] {
      cs := [];
    } else {
      hide DecodeOne, Encode, Scalars, Scalar, EncodeAll;
      var (c, n) := DecodeOne(s).value;
      DecodedEncodes(s);
      var rest := DecodeAll(s[n..]);
      cs := [c] + rest;
      EncodePrepends(c, rest);
      assert s == s[..n] + s[n..];
    }
  }

  lemma DecodableStep(s: seq<u8>)
    requires s != []
    ensures DecodeOne(s).None? ==> !Decodable(s)
    ensures DecodeOne(s).Some? ==> DecodeOne(s).value.1 <= |s| && (Decodable(s) <==> Decodable(s[DecodeOne(s).value.1..]))
  {
    hide DecodeOne;
  }

  lemma EncodePrepends(c: nat, cs: seq<nat>)
    requires Scalar(c) && Scalars(cs)
    ensures Scalars([c] + cs) && EncodeAll([c] + cs) == Encode(c) + EncodeAll(cs)
  {
    hide Encode;
    assert ([c] + cs)[1..] == cs;
  }

  lemma Digits2(a: nat, b: nat)
    requires b < 0x40
    ensures (a * 0x40 + b) / 0x40 == a && (a * 0x40 + b) % 0x40 == b
  {
  }

  lemma Digits3(a: nat, b: nat, c: nat)
    requires b < 0x40 && c < 0x40
    ensures var v := (a * 0x40 + b) * 0x40 + c; v / 0x1000 == a && v / 0x40 % 0x40 == b && v % 0x40 == c
  {
    Digits2(a * 0x40 + b, c);
    Digits2(a, b);
  }

  lemma Digits4(a: nat, b: nat, c: nat, d: nat)
    requires b < 0x40 && c < 0x40 && d < 0x40
    ensures var v := ((a * 0x40 + b) * 0x40 + c) * 0x40 + d;
            v / 0x40000 == a && v / 0x1000 % 0x40 == b && v / 0x40 % 0x40 == c && v % 0x40 == d
  {
    Digits2((a * 0x40 + b) * 0x40 + c, d);
    Digits3(a, b, c);
  }

  lemma AccumulatedIs(s: seq<u8>)
    ensures |s| > 1 ==> Accumulated(s, 1) == Lead(s[0]) * 0x40 + s[1] % 0x40
    ensures |s| > 2 ==> Accumulated(s, 2) == (Lead(s[0]) * 0x40 + s[1] % 0x40) * 0x40 + s[2] % 0x40
    ensures |s| > 3 ==> Accumulated(s, 3) == ((Lead(s[0]) * 0x40 + s[1] % 0x40) * 0x40 + s[2] % 0x40) * 0x40 + s[3] % 0x40
  {
    if |s| > 1 { assert Accumulated(s, 0) == Lead(s[0]); }
    if |s| > 2 { assert Accumulated(s, 2) == Accumulated(s, 1) * 0x40 + s[2] % 0x40; }
    if |s| > 3 { assert Accumulated(s, 3) == Accumulated(s, 2) * 0x40 + s[3] % 0x40; }
  }

  lemma ContinuationBits(b: u8)
    requires Continuation(b)
    ensures b == 0x80 + b % 0x40
  {
  }

  lemma EncodesTwo(c: u8, d: u8)
    requires Need(c) == 1 && Continuation(d) && c % 0x20 >= 2
    ensures Encode(Lead(c) * 0x40 + d % 0x40) == [c, d]
  {
    Digits2(Lead(c), d % 0x40);
    ContinuationBits(d);
  }

  lemma EncodesThree(c: u8, d: u8, e: u8)
    requires Need(c) == 2 && Continuation(d) && Continuation(e) && (Lead(c) * 0x40 + d % 0x40) * 0x40 + e % 0x40 >= 0x800
    ensures Encode((Lead(c) * 0x40 + d % 0x40) * 0x40 + e % 0x40) == [c, d, e]
  {
    Digits3(Lead(c), d % 0x40, e % 0x40);
    ContinuationBits(d);
    ContinuationBits(e);
  }

  lemma EncodesFour(c: u8, d: u8, e: u8, f: u8)
    requires Need(c) == 3 && Continuation(d) && Continuation(e) && Continuation(f)
    requires 0x10000 <= ((Lead(c) * 0x40 + d % 0x40) * 0x40 + e % 0x40) * 0x40 + f % 0x40 <= 0x10FFFF
    ensures Encode(((Lead(c) * 0x40 + d % 0x40) * 0x40 + e % 0x40) * 0x40 + f % 0x40) == [c, d, e, f]
  {
    Digits4(Lead(c), d % 0x40, e % 0x40, f % 0x40);
    ContinuationBits(d);
    ContinuationBits(e);
    ContinuationBits(f);
  }

  /** Decoding then encoding gives the bytes back, so only shortest forms are accepted. */
  lemma DecodedEncodes(s: seq<u8>)
    requires s != [] && DecodeOne(s).Some?
    ensures var (c, n) := DecodeOne(s).value; Scalar(c) && Encode(c) == s[..n]
  {
    var need := Need(s[0]);
    hide Accumulated, Encode, Lead;
    AccumulatedIs(s);
    if s[0] < 0x80 {
      EncodeAscii(s[0]);
    } else {
      assert forall k :: 1 <= k <= need ==> Continuation(s[k]);
      if need == 1 { EncodesTwo(s[0], s[1]); }
      if need == 2 { EncodesThree(s[0], s[1], s[2]); }
      if need == 3 { EncodesFour(s[0], s[1], s[2], s[3]); }
    }
  }

  lemma {:induction false} TextIsDecodable(cs: seq<nat>)
    requires Scalars(cs)
    ensures Decodable(EncodeAll(cs))
    decreases |cs|
  {
    if cs != [] {
      TextIsDecodable(cs[1..]);
      EncodedDecodes(cs[0], EncodeAll(cs[1..]));
    }
  }

  /** Encoding then decoding gives the character back, whatever follows. */
  lemma EncodedDecodes(c: nat, rest: seq<u8>)
    requires Scalar(c)
    ensures DecodeOne(Encode(c) + rest) == Some((c, |Encode(c)|))
    ensures (Encode(c) + rest)[|Encode(c)|..] == rest
  {
    hide Accumulated, Encode;
    var e := Encode(c);
    assert (e + rest)[0] == e[0];
    if c >= 0x80 {
      LeadByte(c);
      EncodedBits(c);
      AccumulatedPrefix(e, rest, |e| - 1);
      assert forall k :: 1 <= k <= Need(e[0]) ==> (e + rest)[k] == e[k];
      DecodeAccepts(e + rest, c);
    } else {
      EncodeAscii(c);
    }
  }

  lemma DecodeAccepts(s: seq<u8>, v: nat)
    requires s != [] && s[0] >= 0x80 && 0 < Need(s[0]) < |s|
    requires forall k :: 1 <= k <= Need(s[0]) ==> Continuation(s[k])
    requires Accumulated(s, Need(s[0])) == v && !Refused(s[0], v)
    ensures DecodeOne(s) == Some((v, Need(s[0]) + 1))
  {
  }

  lemma EncodeAscii(c: nat)
    requires c < 0x80
    ensures Encode(c) == [c]
  {
  }

  lemma {:induction false} AccumulatedPrefix(s: seq<u8>, rest: seq<u8>, n: nat)
    requires n < |s|
    ensures Accumulated(s + rest, n) == Accumulated(s, n)
  {
    if n > 0 { AccumulatedPrefix(s, rest, n - 1); }
  }

  /** The lead byte of an encoding announces its length. */
  lemma LeadByte(c: nat)
    requires 0x80 <= c <= 0x10FFFF
    ensures Need(Encode(c)[0]) == |Encode(c)| - 1 > 0 && Encode(c)[0] >= 0x80
    ensures forall k :: 1 <= k < |Encode(c)| ==> Continuation(Encode(c)[k])
    ensures if |Encode(c)| == 2 then c < 0x800 else if |Encode(c)| == 3 then 0x800 <= c < 0x10000 else 0x10000 <= c
  {
  }

  /** The payload bits of an encoding are the digits of the code point. */
  lemma EncodedBits(c: nat)
    requires 0x80 <= c <= 0x10FFFF
    ensures Accumulated(Encode(c), |Encode(c)| - 1) == c
    ensures |Encode(c)| == 2 ==> Encode(c)[0] % 0x20 >= 2
  {
    hide Accumulated;
    AccumulatedIs(Encode(c));
    LeadByte(c);
    Joined(c);
  }

  lemma Joined(c: nat)
    ensures c / 0x40 * 0x40 + c % 0x40 == c
    ensures (c / 0x1000 * 0x40 + c / 0x40 % 0x40) * 0x40 + c % 0x40 == c
    ensures ((c / 0x40000 * 0x40 + c / 0x1000 % 0x40) * 0x40 + c / 0x40 % 0x40) * 0x40 + c % 0x40 == c
  {
    assert c / 0x40 / 0x40 == c / 0x1000 && c / 0x1000 / 0x40 == c / 0x40000;
  }

  /** The list of scalar values behind an accepted text is unique. */
  lemma {:induction false} TextIsUnique(cs: seq<nat>, ds: seq<nat>)
    requires Scalars(cs) && Scalars(ds) && EncodeAll(cs) == EncodeAll(ds)
    ensures cs == ds
    decreases |cs|
  {
    if cs != [] && ds != [] {
      EncodedDecodes(cs[0], EncodeAll(cs[1..]));
      EncodedDecodes(ds[0], EncodeAll(ds[1..]));
      TextIsUnique(cs[1..], ds[1..]);
    }
  }
}
