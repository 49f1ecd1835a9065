/** Unicode scalar values, and the two encodings the ports' source texts use: UTF-8 bytes and UTF-16 units. */
module Utf {

  const REPLACEMENT: nat := 0xFFFD

  predicate IsScalar(c: nat) {
    c < 0xD800 || 0xE000 <= c < 0x110000
  }

  ghost predicate Scalars(s: seq<nat>) {
    forall i | 0 <= i < |s| :: IsScalar(s[i])
  }

  predicate IsHigh(u: nat) {
    0xD800 <= u <= 0xDBFF
  }

  predicate IsLow(u: nat) {
    0xDC00 <= u <= 0xDFFF
  }

  // ---- UTF-8 ----

  function Utf8One(c: nat): (bytes: seq<nat>)
    ensures 1 <= |bytes| <= 4
  {
    if c < 0x80 then [c]
    else if c < 0x800 then [0xC0 + c / 64, 0x80 + c % 64]
    else if c < 0x10000 then [0xE0 + c / 4096, 0x80 + c / 64 % 64, 0x80 + c % 64]
    else [0xF0 + c / 262144, 0x80 + c / 4096 % 64, 0x80 + c / 64 % 64, 0x80 + c % 64]
  }

  function Utf8(s: seq<nat>): seq<nat> {
    if s == [] then [] else Utf8One(s[0]) + Utf8(s[1..])
  }

  /** The byte offset of the k-th character. */
  function Offset8(s: seq<nat>, k: nat): nat
    requires k <= |s|
  {
    |Utf8(s[..k])|
  }

  /** The scalar a lead byte and its followers would spell. */
  function Candidate(bytes: seq<nat>, i: nat): nat
    requires i < |bytes|
  {
    var b0 := bytes[i];
    var at := (k: nat) => if i + k < |bytes| && bytes[i + k] >= 0x80 then bytes[i + k] - 0x80 else 0;
    if b0 < 0xC0 then b0
    else if b0 < 0xE0 then (b0 - 0xC0) * 64 + at(1)
    else if b0 < 0xF0 then (b0 - 0xE0) * 4096 + at(1) * 64 + at(2)
    else (b0 - 0xF0) * 262144 + at(1) * 4096 + at(2) * 64 + at(3)
  }

  /** Go's `utf8.DecodeRuneInString` and Rust's `chars().next()`: the character and its size, or U+FFFD and 1. */
  function DecodeRune(bytes: seq<nat>, i: nat): (r: (nat, nat))
    requires i < |bytes|
    ensures r.1 >= 1 && i + r.1 <= |bytes|
  {
    var c := Candidate(bytes, i);
    var code := Utf8One(c);
    if IsScalar(c) && i + |code| <= |bytes| && bytes[i..i + |code|] == code then (c, |code|) else (REPLACEMENT, 1)
  }

  /** Characters of every length: those of section 7 of RFC 3629 and section 3 of RFC 2781, and their neighbours. */
  lemma EncodingsOfExamples()
    ensures Utf8One(0x7F) == [0x7F] && Utf8One(0xE9) == [0xC3, 0xA9] && Utf8One(0x2262) == [0xE2, 0x89, 0xA2]
    ensures Utf8One(0x233B4) == [0xF0, 0xA3, 0x8E, 0xB4] && Utf8One(0xFEFF) == [0xEF, 0xBB, 0xBF]
    ensures Utf16One(0xFFFD) == [0xFFFD] && Utf16One(0x12345) == [0xD808, 0xDF45]
    ensures IsHigh(0xD800) && IsHigh(0xDBFF) && IsLow(0xDC00) && IsLow(0xDFFF)
    ensures !IsHigh(0xD7FF) && !IsHigh(0xDC00) && !IsLow(0xDBFF) && !IsLow(0xE000)
  {
  }

  lemma {:induction false} Utf8Concat(a: seq<nat>, b: seq<nat>)
    ensures Utf8(a + b) == Utf8(a) + Utf8(b)
  {
    if a == [] {
      assert a + b == b;
    } else {
      assert (a + b)[1..] == a[1..] + b;
      Utf8Concat(a[1..], b);
      hide Utf8One;
      assert Utf8One(a[0]) + (Utf8(a[1..]) + Utf8(b)) == Utf8One(a[0]) + Utf8(a[1..]) + Utf8(b);
    }
  }

  lemma Utf8Single(c: nat)
    ensures Utf8([c]) == Utf8One(c)
  {
    assert [c][1..] == [];
    assert Utf8([]) == [];
  }

  /** The character at an offset is encoded there, and the next offset is just past it. */
  lemma OffsetStep(s: seq<nat>, k: nat)
    requires k < |s|
    ensures Offset8(s, k + 1) == Offset8(s, k) + |Utf8One(s[k])| <= |Utf8(s)|
    ensures Utf8(s)[Offset8(s, k)..Offset8(s, k + 1)] == Utf8One(s[k])
  {
    hide Utf8One, Utf8;
    assert s[..k + 1] == s[..k] + [s[k]];
    assert s == s[..k + 1] + s[k + 1..];
    Utf8Concat(s[..k], [s[k]]);
    Utf8Single(s[k]);
    Utf8Concat(s[..k + 1], s[k + 1..]);
  }

  lemma OffsetEnd(s: seq<nat>)
    ensures Offset8(s, |s|) == |Utf8(s)| && Offset8(s, 0) == 0
  {
    assert s[..|s|] == s;
  }

  lemma {:induction false} OffsetOrder(s: seq<nat>, j: nat, k: nat)
    requires j <= k <= |s|
    ensures Offset8(s, j) + (k - j) <= Offset8(s, k)
  {
    if j < k {
      OffsetOrder(s, j, k - 1);
      OffsetStep(s, k - 1);
    }
  }

  lemma CandidateOfCode(bytes: seq<nat>, i: nat, c: nat)
    requires IsScalar(c) && i + |Utf8One(c)| <= |bytes| && bytes[i..i + |Utf8One(c)|] == Utf8One(c)
    ensures Candidate(bytes, i) == c
  {
    var code := Utf8One(c);
    var here := bytes[i..i + |code|];
    assert here[0] == bytes[i];
    if c >= 0x80 {
      assert here[1] == bytes[i + 1];
      if c >= 0x800 {
        assert here[2] == bytes[i + 2];
        if c >= 0x10000 {
          assert here[3] == bytes[i + 3];
          FourDigits(c);
        } else {
          ThreeDigits(c);
        }
      }
    }
  }

  lemma ThreeDigits(c: nat)
    requires c < 0x10000
    ensures c == c / 4096 * 4096 + c / 64 % 64 * 64 + c % 64 && c / 4096 < 16
  {
    assert c / 64 / 64 == c / 4096;
  }

  lemma FourDigits(c: nat)
    requires c < 0x110000
    ensures c == c / 262144 * 262144 + c / 4096 % 64 * 4096 + c / 64 % 64 * 64 + c % 64 && c / 262144 < 8
  {
    assert c / 64 / 64 == c / 4096;
    assert c / 4096 / 64 == c / 262144;
  }

  /** Decoding at a character's offset gives the character. */
  lemma DecodeAt(s: seq<nat>, k: nat)
    requires Scalars(s) && k < |s|
    ensures Offset8(s, k) < |Utf8(s)|
    ensures DecodeRune(Utf8(s), Offset8(s, k)) == (s[k], |Utf8One(s[k])|)
    ensures Offset8(s, k + 1) == Offset8(s, k) + |Utf8One(s[k])|
  {
    hide Utf8One, Utf8, Candidate;
    OffsetStep(s, k);
    CandidateOfCode(Utf8(s), Offset8(s, k), s[k]);
  }

  /** An ASCII byte at a character's offset is that character. */
  lemma ByteAt(s: seq<nat>, k: nat)
    requires Scalars(s) && k < |s|
    ensures Offset8(s, k) < |Utf8(s)|
    ensures s[k] < 0x80 ==> Utf8(s)[Offset8(s, k)] == s[k] && Offset8(s, k + 1) == Offset8(s, k) + 1
    ensures s[k] >= 0x80 ==> Utf8(s)[Offset8(s, k)] >= 0xC0
  {
    hide Utf8;
    OffsetStep(s, k);
    assert Utf8(s)[Offset8(s, k)] == Utf8(s)[Offset8(s, k)..Offset8(s, k + 1)][0];
  }

  // ---- UTF-16 ----

  function Utf16One(c: nat): (units: seq<nat>)
    ensures 1 <= |units| <= 2
  {
    if c < 0x10000 then [c] else [0xD800 + (c - 0x10000) / 1024, 0xDC00 + (c - 0x10000) % 1024]
  }

  function Utf16(s: seq<nat>): seq<nat> {
    if s == [] then [] else Utf16One(s[0]) + Utf16(s[1..])
  }

  function Offset16(s: seq<nat>, k: nat): nat
    requires k <= |s|
  {
    |Utf16(s[..k])|
  }

  function Combine(high: nat, low: nat): nat
    requires IsHigh(high) && IsLow(low)
  {
    0x10000 + (high - 0xD800) * 1024 + (low - 0xDC00)
  }

  /** UTF-16 decoding: pairs combined, and every unpaired half folded to U+FFFD. */
  function DecodeLossy(units: seq<nat>): seq<nat> {
    if units == [] then []
    else if IsHigh(units[0]) && |units| > 1 && IsLow(units[1]) then
      [Combine(units[0], units[1])] + DecodeLossy(units[2..])
    else if IsHigh(units[0]) || IsLow(units[0]) then [REPLACEMENT] + DecodeLossy(units[1..])
    else [units[0]] + DecodeLossy(units[1..])
  }

  lemma {:induction false} Utf16Concat(a: seq<nat>, b: seq<nat>)
    ensures Utf16(a + b) == Utf16(a) + Utf16(b)
  {
    if a == [] {
      assert a + b == b;
    } else {
      assert (a + b)[1..] == a[1..] + b;
      Utf16Concat(a[1..], b);
      hide Utf16One;
      assert Utf16One(a[0]) + (Utf16(a[1..]) + Utf16(b)) == Utf16One(a[0]) + Utf16(a[1..]) + Utf16(b);
    }
  }

  lemma Utf16Single(c: nat)
    ensures Utf16([c]) == Utf16One(c)
  {
    assert [c][1..] == [];
    assert Utf16([]) == [];
  }

  lemma Offset16Step(s: seq<nat>, k: nat)
    requires k < |s|
    ensures Offset16(s, k + 1) == Offset16(s, k) + |Utf16One(s[k])| <= |Utf16(s)|
    ensures Utf16(s)[Offset16(s, k)..Offset16(s, k + 1)] == Utf16One(s[k])
  {
    hide Utf16One, Utf16;
    assert s[..k + 1] == s[..k] + [s[k]];
    assert s == s[..k + 1] + s[k + 1..];
    Utf16Concat(s[..k], [s[k]]);
    Utf16Single(s[k]);
    Utf16Concat(s[..k + 1], s[k + 1..]);
  }

  lemma Offset16End(s: seq<nat>)
    ensures Offset16(s, |s|) == |Utf16(s)| && Offset16(s, 0) == 0
  {
    assert s[..|s|] == s;
  }

  /** The units at a character's offset: itself below U+10000, and above it a surrogate pair. */
  lemma UnitsAt(s: seq<nat>, k: nat)
    requires Scalars(s) && k < |s|
    ensures Offset16(s, k) < |Utf16(s)|
    ensures s[k] < 0x10000 ==> Utf16(s)[Offset16(s, k)] == s[k] && Offset16(s, k + 1) == Offset16(s, k) + 1
    ensures s[k] >= 0x10000 ==> && Offset16(s, k + 1) == Offset16(s, k) + 2 <= |Utf16(s)|
                                && IsHigh(Utf16(s)[Offset16(s, k)]) && IsLow(Utf16(s)[Offset16(s, k) + 1])
                                && Utf16One(s[k]) == [Utf16(s)[Offset16(s, k)], Utf16(s)[Offset16(s, k) + 1]]
  {
    hide Utf16;
    Offset16Step(s, k);
    var code := Utf16(s)[Offset16(s, k)..Offset16(s, k + 1)];
    assert Utf16(s)[Offset16(s, k)] == code[0];
    if s[k] >= 0x10000 {
      assert Utf16(s)[Offset16(s, k) + 1] == code[1];
    }
  }

  /** Decoding what was encoded gives the text back. */
  lemma {:induction false} DecodeEncoded(s: seq<nat>)
    requires Scalars(s)
    ensures DecodeLossy(Utf16(s)) == s
  {
    if s != [] {
      DecodeEncoded(s[1..]);
      var units, rest := Utf16(s), Utf16(s[1..]);
      if s[0] < 0x10000 {
        assert units == [s[0]] + rest;
        assert units[1..] == rest;
      } else {
        assert units[2..] == rest;
      }
    }
  }
}
