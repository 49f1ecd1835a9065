/**
  The canonical value form of the conformance suite (scripts/gen-json5-expected.js): a value as one ASCII
  string, so that runtimes without a shared value model can compare values.
 */
module Canon {
  import opened Numerals
  import opened Ordering
  import opened Wrappers

  /** A code unit of a string. */
  type Unit = u: nat | u < 0x10000

  /** A value the oracle gives: numbers by their IEEE 754 bits, objects by their keys in insertion order. */
  datatype Json =
    | Null
    | Bool(b: bool)
    | Number(bits: nat)
    | Text(units: seq<Unit>)
    | Array(items: seq<Json>)
    | Object(members: seq<Member>)

  datatype Member = Member(key: seq<Unit>, value: Json)

  // ---- Hexadecimal ----

  const HEX := "0123456789abcdef"

  /** The last n hexadecimal digits of a number. */
  function HexText(v: nat, n: nat): (r: string)
    ensures |r| == n && forall i | 0 <= i < n :: r[i] in HEX
  {
    if n == 0 then "" else HexText(v / 16, n - 1) + [HEX[v % 16]]
  }

  function Pow16(n: nat): nat {
    if n == 0 then 1 else 16 * Pow16(n - 1)
  }

  // ---- Strings ----

  function QuoteUnit(c: Unit): string {
    if c == 0x22 then "\\\""
    else if c == 0x5C then "\\\\"
    else if 0x20 <= c <= 0x7E then [c as char]
    else "\\u" + HexText(c, 4)
  }

  function QuoteUnits(units: seq<Unit>): string {
    if units == [] then "" else QuoteUnit(units[0]) + QuoteUnits(units[1..])
  }

  function Quoted(units: seq<Unit>): string {
    "\"" + QuoteUnits(units) + "\""
  }

  lemma {:induction false} QuoteSnoc(units: seq<Unit>, c: Unit)
    ensures QuoteUnits(units + [c]) == QuoteUnits(units) + QuoteUnit(c)
  {
    hide QuoteUnit;
    if units == [] {
      assert [] + [c] == [c] && [c][1..] == [];
      assert QuoteUnit(c) + "" == "" + QuoteUnit(c);
    } else {
      assert (units + [c])[1..] == units[1..] + [c];
      QuoteSnoc(units[1..], c);
      assert QuoteUnit(units[0]) + (QuoteUnits(units[1..]) + QuoteUnit(c))
          == QuoteUnit(units[0]) + QuoteUnits(units[1..]) + QuoteUnit(c);
    }
  }

  lemma FourDigits(c: Unit)
    ensures HexText(c, 4) == [HEX[c / 4096 % 16], HEX[c / 256 % 16], HEX[c / 16 % 16], HEX[c % 16]]
  {
    var c1, c2 := c / 16, c / 16 / 16;
    assert c2 == c / 256 && c2 / 16 == c / 4096;
    assert HexText(c2 / 16, 1) == HexText(c2 / 16 / 16, 0) + [HEX[c2 / 16 % 16]];
    assert HexText(c2, 2) == HexText(c2 / 16, 1) + [HEX[c2 % 16]];
    assert HexText(c1, 3) == HexText(c2, 2) + [HEX[c1 % 16]];
    assert HexText(c, 4) == HexText(c1, 3) + [HEX[c % 16]];
  }

  /** One turn of the quoting loops, which spell the digits of a unit one by one. */
  method AppendUnit(out: string, c: Unit, ghost done: seq<Unit>) returns (out': string)
    requires out == "\"" + QuoteUnits(done)
    ensures out' == "\"" + QuoteUnits(done + [c])
  {
    hide QuoteUnit, QuoteUnits;
    var spelling := SpellUnit(c);
    QuoteSnoc(done, c);
    out' := out + spelling;
  }

  method SpellUnit(c: Unit) returns (spelling: string)
    ensures spelling == QuoteUnit(c)
  {
    if c == 0x22 {
      return "\\\"";
    }
    if c == 0x5C {
      return "\\\\";
    }
    if 0x20 <= c <= 0x7E {
      return [c as char];
    }
    FourDigits(c);
    hide HexText;
    spelling := "\\u" + [HEX[c / 4096 % 16], HEX[c / 256 % 16], HEX[c / 16 % 16], HEX[c % 16]];
  }

  /** quote. */
  method Quote(s: seq<Unit>) returns (out: string)
    ensures out == Quoted(s)
  {
    assert QuoteUnits([]) == "";
    hide QuoteUnit, QuoteUnits;
    out := "\"";
    var i := 0;
    while i < |s|
      invariant i <= |s| && out == "\"" + QuoteUnits(s[..i])
    {
      out := AppendUnit(out, s[i], s[..i]);
      assert s[..i + 1] == s[..i] + [s[i]];
      i := i + 1;
    }
    assert s[..i] == s;
    out := out + "\"";
  }

  // ---- Numbers ----

  const INFINITE: nat := 0x7FF0_0000_0000_0000
  const SIGN: nat := 0x8000_0000_0000_0000

  predicate IsNaN(bits: nat) {
    bits % SIGN > INFINITE
  }

  /** NaN and the infinities by name, and every other number by its bits, so that -0 is not 0. */
  function NumberText(bits: nat): string {
    if IsNaN(bits) then "NaN"
    else if bits == INFINITE then "Infinity"
    else if bits == SIGN + INFINITE then "-Infinity"
    else "#" + HexText(bits, 16)
  }

  // The fields of a number's bits: one for the sign, eleven for the biased exponent, and 52 for the significand.

  function SignBit(bits: nat): nat {
    bits / 0x8000_0000_0000_0000
  }

  function Exponent(bits: nat): nat {
    bits / 0x10_0000_0000_0000 % 2048
  }

  function Significand(bits: nat): nat {
    bits % 0x10_0000_0000_0000
  }

  lemma FieldsSum(bits: nat)
    ensures bits == SignBit(bits) * 0x8000_0000_0000_0000 + Exponent(bits) * 0x10_0000_0000_0000 + Significand(bits)
    ensures Exponent(bits) < 2048 && Significand(bits) < 0x10_0000_0000_0000
  {
    var high := bits / 0x10_0000_0000_0000;
    assert high / 2048 == SignBit(bits);
  }

  /** NaN is the greatest exponent with a significand. */
  lemma NaNByFields(bits: nat)
    ensures IsNaN(bits) <==> Exponent(bits) == 2047 && Significand(bits) != 0
  {
    FieldsSum(bits);
    hide Exponent, Significand;
    assert bits % SIGN == Exponent(bits) * 0x10_0000_0000_0000 + Significand(bits);
  }

  /** And an infinity the greatest one with none, by its sign. */
  lemma InfinityByFields(bits: nat)
    ensures bits == INFINITE <==> SignBit(bits) == 0 && Exponent(bits) == 2047 && Significand(bits) == 0
    ensures bits == SIGN + INFINITE <==> SignBit(bits) == 1 && Exponent(bits) == 2047 && Significand(bits) == 0
  {
    FieldsSum(bits);
  }

  /** What is left of a number without its last n bytes. */
  function Above(bits: nat, n: nat): nat {
    if n == 0 then bits else Above(bits, n - 1) / 256
  }

  lemma TwoDigits(v: nat, n: nat)
    ensures HexText(v, n + 2) == HexText(v / 256, n) + ([HEX[v % 256 / 16]] + [HEX[v % 256 % 16]])
  {
    assert v / 16 / 16 == v / 256 && v / 16 % 16 == v % 256 / 16 && v % 256 % 16 == v % 16;
    assert HexText(v, n + 2) == HexText(v / 16, n + 1) + [HEX[v % 16]];
    assert HexText(v / 16, n + 1) == HexText(v / 16 / 16, n) + [HEX[v / 16 % 16]];
  }

  /** The bytes so far, folded away from the loop over them. */
  ghost predicate SpelledSo(bits: nat, i: nat, hex: string) {
    forall n: nat | Folded(n) :: i <= 8 && hex == HexText(Above(bits, 8 - i), 2 * i)
  }

  lemma SpelledStart(bits: nat)
    ensures SpelledSo(bits, 0, "")
  {
  }

  lemma SpelledOn(bits: nat, i: nat, hex: string)
    requires i < 8 && SpelledSo(bits, i, hex)
    ensures var b := Above(bits, 7 - i) % 256; SpelledSo(bits, i + 1, hex + ([HEX[b / 16]] + [HEX[b % 16]]))
  {
    hide HexText;
    assert Folded(0);
    TwoDigits(Above(bits, 7 - i), 2 * i);
  }

  lemma SpelledEnd(bits: nat, hex: string)
    requires SpelledSo(bits, 8, hex)
    ensures hex == HexText(bits, 16)
  {
    hide HexText;
    assert Folded(0);
  }

  /** canonNumber: the bytes of a number, the first one first, two digits each. */
  method CanonNumber(bits: nat) returns (text: string)
    ensures text == NumberText(bits)
  {
    if IsNaN(bits) {
      return "NaN";
    }
    if bits == INFINITE {
      return "Infinity";
    }
    if bits == SIGN + INFINITE {
      return "-Infinity";
    }
    var hex := HexBytes(bits);
    text := "#" + hex;
  }

  method HexBytes(bits: nat) returns (hex: string)
    ensures hex == HexText(bits, 16)
  {
    hex := "";
    var i := 0;
    SpelledStart(bits);
    while i < 8
      invariant i <= 8 && SpelledSo(bits, i, hex)
    {
      SpelledOn(bits, i, hex);
      var b := Above(bits, 7 - i) % 256;
      hex := hex + ([HEX[b / 16]] + [HEX[b % 16]]);
      i := i + 1;
    }
    SpelledEnd(bits, hex);
  }

  // ---- Values ----

  /** Array.prototype.join with a comma. */
  function Joined(parts: seq<string>): string {
    if parts == [] then ""
    else if |parts| == 1 then parts[0]
    else parts[0] + "," + Joined(parts[1..])
  }

  /** A member as the generator holds it: its quoted key, and the canonical form of its value. */
  datatype Entry = Entry(key: string, text: string)

  function EntryKey(e: Entry): seq<nat> {
    Codes(e.key)
  }

  function Whole(e: Entry): string {
    e.key + ":" + e.text
  }

  /** canon: the entries of an object are sorted by their quoted keys. */
  function CanonText(v: Json): string {
    match v
    case Null => "null"
    case Bool(b) => if b then "true" else "false"
    case Number(bits) => NumberText(bits)
    case Text(units) => Quoted(units)
    case Array(items) => "[" + Joined(CanonAll(items)) + "]"
    case Object(members) => "{" + Joined(Mapped(SortBy(EntriesOf(members), EntryKey), Whole)) + "}"
  }

  function CanonAll(items: seq<Json>): (r: seq<string>)
    ensures |r| == |items| && forall i | 0 <= i < |items| :: r[i] == CanonText(items[i])
  {
    if items == [] then [] else [CanonText(items[0])] + CanonAll(items[1..])
  }

  function EntryOf(m: Member): Entry {
    Entry(Quoted(m.key), CanonText(m.value))
  }

  function EntriesOf(members: seq<Member>): (r: seq<Entry>)
    ensures |r| == |members| && forall i | 0 <= i < |members| :: r[i] == EntryOf(members[i])
  {
    if members == [] then [] else [EntryOf(members[0])] + EntriesOf(members[1..])
  }

  /** The objects of a value have distinct keys, and its numbers 64 bits. */
  ghost predicate WellFormed(v: Json) {
    match v
    case Number(bits) => bits < Pow16(16)
    case Array(items) => forall i | 0 <= i < |items| :: WellFormed(items[i])
    case Object(members) =>
      && (forall i | 0 <= i < |members| :: WellFormed(members[i].value))
      && DistinctKeys(members)
    case _ => true
  }

  ghost predicate DistinctKeys(members: seq<Member>) {
    forall i, j | 0 <= i < j < |members| :: members[i].key != members[j].key
  }

  // ---- A value as a tree of unordered members ----

  datatype Tree =
    | NullTree
    | BoolTree(b: bool)
    | NaNTree
    | NumberTree(bits: nat)
    | TextTree(units: seq<Unit>)
    | ArrayTree(items: seq<Tree>)
    | ObjectTree(members: map<seq<Unit>, Tree>)

  /** The tree of a number does not tell one NaN from another: section 3.4 of IEEE 754-2008 has many. */
  function NumberTreeOf(bits: nat): Tree {
    if Exponent(bits) == 2047 && Significand(bits) != 0 then NaNTree else NumberTree(bits)
  }

  function TreeOf(v: Json): Tree {
    match v
    case Null => NullTree
    case Bool(b) => BoolTree(b)
    case Number(bits) => NumberTreeOf(bits)
    case Text(units) => TextTree(units)
    case Array(items) => ArrayTree(TreesOf(items))
    case Object(members) => ObjectTree(MapOf(members))
  }

  function TreesOf(items: seq<Json>): (r: seq<Tree>)
    ensures |r| == |items| && forall i | 0 <= i < |items| :: r[i] == TreeOf(items[i])
  {
    if items == [] then [] else [TreeOf(items[0])] + TreesOf(items[1..])
  }

  function MemberTree(m: Member): Tree {
    TreeOf(m.value)
  }

  function MapOf(members: seq<Member>): map<seq<Unit>, Tree> {
    if members == [] then map[] else MapOf(members[1..])[members[0].key := MemberTree(members[0])]
  }
}
