/**
  The streaming surrogate pairing of the Go and Rust readers: a high half is held until the next code
  unit decides it. What a sink has been given and what it holds always decode alike.
 */
module Surrogates {
  import opened Wrappers
  import opened Utf
  import opened StringLiteral

  /** `pendingHi` and the builder: the held half, and the characters written. */
  datatype Sink = Sink(pending: Option<nat>, out: seq<nat>)

  const EMPTY := Sink(None, [])

  function Held(k: Sink): seq<nat> {
    if k.pending.Some? then [k.pending.value] else []
  }

  /**
    The sink stands for the code units given so far: whatever comes after, their UTF-16 decoding is
    what is written, and then the decoding of what is held and what comes.
   */
  ghost predicate Represents(k: Sink, units: seq<nat>) {
    && (k.pending.Some? ==> IsHigh(k.pending.value))
    && forall more: seq<nat> :: DecodeLossy(units + more) == k.out + DecodeLossy(Held(k) + more)
  }

  lemma EmptyRepresents()
    ensures Represents(EMPTY, [])
  {
    forall more: seq<nat> ensures DecodeLossy([] + more) == [] + DecodeLossy([] + more) {
    }
  }

  /** What a sink holds and is given next folds to U+FFFD unless the two pair. */
  lemma HeldFolds(high: nat, more: seq<nat>)
    requires IsHigh(high) && (more == [] || !IsLow(more[0]))
    ensures DecodeLossy([high] + more) == [REPLACEMENT] + DecodeLossy(more)
  {
    assert ([high] + more)[1..] == more;
  }

  /** flushHi and flush_surrogate: resolve a held half that nothing paired with. */
  method Flush(k: Sink) returns (k': Sink)
    ensures k' == Sink(None, k.out + (if k.pending.Some? then [REPLACEMENT] else []))
  {
    if k.pending.Some? {
      return Sink(None, k.out + [REPLACEMENT]);
    }
    assert k.out + [] == k.out;
    k' := k;
  }

  ghost function Flushed(k: Sink): Sink {
    Sink(None, k.out + (if k.pending.Some? then [REPLACEMENT] else []))
  }

  /** Flushing is right before any unit but a low half, and at the end. */
  lemma FlushedDecodes(k: Sink, units: seq<nat>, more: seq<nat>)
    requires Represents(k, units) && (more == [] || !IsLow(more[0]))
    ensures DecodeLossy(units + more) == Flushed(k).out + DecodeLossy(more)
  {
    assert DecodeLossy(units + more) == k.out + DecodeLossy(Held(k) + more);
    if k.pending.Some? {
      HeldFolds(k.pending.value, more);
      assert k.out + ([REPLACEMENT] + DecodeLossy(more)) == k.out + [REPLACEMENT] + DecodeLossy(more);
    } else {
      assert [] + more == more;
      assert k.out + [] == k.out;
    }
  }

  /** A sink, flushed at the end, holds the decoding of all it was given. */
  lemma FlushedIsDecoding(k: Sink, units: seq<nat>)
    requires Represents(k, units)
    ensures Flushed(k).out == DecodeLossy(units)
  {
    FlushedDecodes(k, units, []);
    assert units + [] == units;
    assert Flushed(k).out + DecodeLossy([]) == Flushed(k).out;
  }

  /** emitUnit and emit_code_unit: append one decoded code unit. */
  method EmitUnit(k: Sink, unit: nat, ghost units: seq<nat>) returns (k': Sink)
    requires Represents(k, units)
    ensures Represents(k', units + [unit])
  {
    if IsHigh(unit) {
      var flushed := Flush(k);
      HoldRepresents(k, units, unit);
      return flushed.(pending := Some(unit));
    }
    if IsLow(unit) {
      match k.pending {
        case Some(high) =>
          PairRepresents(k, units, unit);
          return Sink(None, k.out + [Combine(high, unit)]);
        case None =>
          LoneLowRepresents(k, units, unit);
          return k.(out := k.out + [REPLACEMENT]);
      }
    }
    var flushed := Flush(k);
    PlainRepresents(k, units, unit);
    k' := flushed.(out := flushed.out + [unit]);
  }

  lemma HoldRepresents(k: Sink, units: seq<nat>, unit: nat)
    requires Represents(k, units) && IsHigh(unit)
    ensures Represents(Flushed(k).(pending := Some(unit)), units + [unit])
  {
    forall more: seq<nat>
      ensures DecodeLossy(units + [unit] + more) == Flushed(k).out + DecodeLossy([unit] + more)
    {
      assert units + [unit] + more == units + ([unit] + more);
      FlushedDecodes(k, units, [unit] + more);
    }
  }

  lemma PairRepresents(k: Sink, units: seq<nat>, unit: nat)
    requires Represents(k, units) && IsLow(unit) && k.pending.Some?
    ensures Represents(Sink(None, k.out + [Combine(k.pending.value, unit)]), units + [unit])
  {
    var high := k.pending.value;
    forall more: seq<nat>
      ensures DecodeLossy(units + [unit] + more) == k.out + [Combine(high, unit)] + DecodeLossy([] + more)
    {
      assert units + [unit] + more == units + ([unit] + more);
      assert DecodeLossy(units + ([unit] + more)) == k.out + DecodeLossy(Held(k) + ([unit] + more));
      var both := [high] + ([unit] + more);
      assert both[2..] == more && [] + more == more;
      assert k.out + ([Combine(high, unit)] + DecodeLossy(more)) == k.out + [Combine(high, unit)] + DecodeLossy(more);
    }
  }

  lemma LoneLowRepresents(k: Sink, units: seq<nat>, unit: nat)
    requires Represents(k, units) && IsLow(unit) && k.pending.None?
    ensures Represents(k.(out := k.out + [REPLACEMENT]), units + [unit])
  {
    forall more: seq<nat>
      ensures DecodeLossy(units + [unit] + more) == k.out + [REPLACEMENT] + DecodeLossy([] + more)
    {
      assert units + [unit] + more == units + ([unit] + more);
      assert DecodeLossy(units + ([unit] + more)) == k.out + DecodeLossy(Held(k) + ([unit] + more));
      assert [] + ([unit] + more) == [unit] + more;
      assert ([unit] + more)[1..] == more && [] + more == more;
      assert k.out + ([REPLACEMENT] + DecodeLossy(more)) == k.out + [REPLACEMENT] + DecodeLossy(more);
    }
  }

  lemma PlainRepresents(k: Sink, units: seq<nat>, unit: nat)
    requires Represents(k, units) && !IsHigh(unit) && !IsLow(unit)
    ensures Represents(Sink(None, Flushed(k).out + [unit]), units + [unit])
  {
    hide DecodeLossy, Flushed;
    forall more: seq<nat>
      ensures DecodeLossy(units + [unit] + more) == Flushed(k).out + [unit] + DecodeLossy([] + more)
    {
      assert units + [unit] + more == units + ([unit] + more);
      FlushedDecodes(k, units, [unit] + more);
      PlainDecodes(unit, more);
      assert [] + more == more;
      assert Flushed(k).out + ([unit] + DecodeLossy(more)) == Flushed(k).out + [unit] + DecodeLossy(more);
    }
  }

  lemma PlainDecodes(unit: nat, more: seq<nat>)
    requires !IsHigh(unit) && !IsLow(unit)
    ensures DecodeLossy([unit] + more) == [unit] + DecodeLossy(more)
  {
    assert ([unit] + more)[1..] == more;
  }

  /** A character of the source ends a held half, and is its own pair when it is above U+FFFF. */
  lemma CharRepresents(k: Sink, units: seq<nat>, c: nat)
    requires Represents(k, units) && IsScalar(c)
    ensures Represents(Sink(None, Flushed(k).out + [c]), units + Utf16One(c))
  {
    if c < 0x10000 {
      PlainRepresents(k, units, c);
    } else {
      var high, low := Utf16One(c)[0], Utf16One(c)[1];
      HoldRepresents(k, units, high);
      PairRepresents(Flushed(k).(pending := Some(high)), units + [high], low);
      assert units + [high] + [low] == units + Utf16One(c);
      assert Combine(high, low) == c;
    }
  }

  // ---- Items read over characters ----

  /** What a piece adds, as code units, when the text is one of characters. */
  function CharUnits(p: Piece): seq<nat> {
    match p
    case Char(c) => Utf16One(c)
    case Unit(u) => [u]
    case Replaced(c) => [c]
    case Continuation(_) => []
  }

  function ItemUnits(items: seq<Item>): seq<nat> {
    if items == [] then [] else ItemUnits(items[..|items| - 1]) + CharUnits(items[|items| - 1].piece)
  }

  lemma ItemUnitsSnoc(items: seq<Item>, item: Item)
    ensures ItemUnits(items + [item]) == ItemUnits(items) + CharUnits(item.piece)
  {
    assert (items + [item])[..|items|] == items;
  }

  /** What the reader does to its sink for an item. */
  method Deliver(k: Sink, piece: Piece, ghost units: seq<nat>) returns (k': Sink)
    requires Represents(k, units)
    requires piece.Char? ==> IsScalar(piece.c)
    requires piece.Replaced? ==> piece.c < 0x80
    ensures Represents(k', units + CharUnits(piece))
  {
    match piece {
      case Continuation(_) =>
        assert units + [] == units;
        k' := k;
      case Unit(u) =>
        k' := EmitUnit(k, u, units);
      case Replaced(c) =>
        var flushed := Flush(k);
        CharRepresents(k, units, c);
        k' := flushed.(out := flushed.out + [c]);
      case Char(c) =>
        var flushed := Flush(k);
        CharRepresents(k, units, c);
        k' := flushed.(out := flushed.out + [c]);
    }
  }
}
