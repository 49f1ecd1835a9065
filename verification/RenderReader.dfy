/** A reference reader of the renderer's tokens: recursive descent, with one token of look-ahead. */
module RenderReader {
  import opened Wrappers
  import opened Renderer
  import opened RenderProofs
  import opened RenderTheorems

  datatype Read<T> = Read(value: T, rest: seq<Token>) | Unreadable

  /** The scalar a token spells, if it spells one. */
  function ReadScalar(token: Token): Option<Scalar> {
    match token
    case Quoted(text) => Some(Text(text))
    case Lexeme(number) => Some(Numeric(Finite(number)))
    case Word(word) =>
      if word == "null" then Some(Null)
      else if word == "true" then Some(Boolean(true))
      else if word == "false" then Some(Boolean(false))
      else if word == "Infinity" then Some(Numeric(Infinity))
      else if word == "-Infinity" then Some(Numeric(NegativeInfinity))
      else if word == "NaN" then Some(Numeric(NaN))
      else None
    case Punctuation(_) => None
  }

  function ReadValue(tokens: seq<Token>): (r: Read<Tree>)
    ensures r.Read? ==> |r.rest| < |tokens|
    decreases |tokens|, 2
  {
    if tokens == [] then Unreadable
    else if tokens[0] == Punctuation('[') then
      var inner := tokens[1..];
      if inner != [] && inner[0] == Punctuation(']') then Read(Arr([]), inner[1..])
      else ReadItems([], inner)
    else if tokens[0] == Punctuation('{') then
      var inner := tokens[1..];
      if inner != [] && inner[0] == Punctuation('}') then Read(Obj([]), inner[1..])
      else ReadMembers([], inner)
    else
      match ReadScalar(tokens[0])
      case Some(scalar) => Read(Leaf(scalar), tokens[1..])
      case None => Unreadable
  }

  /** An item, and what follows it: a comma and more, or the closer. */
  function ReadItems(items: seq<Tree>, tokens: seq<Token>): (r: Read<Tree>)
    ensures r.Read? ==> |r.rest| < |tokens|
    decreases |tokens|, 3
  {
    match ReadValue(tokens)
    case Unreadable => Unreadable
    case Read(item, rest) =>
      if rest == [] then Unreadable
      else if rest[0] == Punctuation(',') then ReadItems(items + [item], rest[1..])
      else if rest[0] == Punctuation(']') then Read(Arr(items + [item]), rest[1..])
      else Unreadable
  }

  function ReadMembers(members: seq<Entry>, tokens: seq<Token>): (r: Read<Tree>)
    ensures r.Read? ==> |r.rest| < |tokens|
    decreases |tokens|, 3
  {
    if tokens == [] || !tokens[0].Quoted? then Unreadable
    else
      var afterKey := tokens[1..];
      if afterKey == [] || afterKey[0] != Punctuation(':') then Unreadable
      else
        match ReadValue(afterKey[1..])
        case Unreadable => Unreadable
        case Read(value, rest) =>
          var more := members + [Entry(tokens[0].text, value)];
          if rest == [] then Unreadable
          else if rest[0] == Punctuation(',') then ReadMembers(more, rest[1..])
          else if rest[0] == Punctuation('}') then Read(Obj(more), rest[1..])
          else Unreadable
  }

  /** One value and the line feed that ends the document. */
  function ReadDocument(tokens: seq<Token>): Option<Tree> {
    match ReadValue(tokens)
    case Read(t, rest) => if rest == LINE_FEED then Some(t) else None
    case Unreadable => None
  }

  // ---- The printing in the order a reader meets it ----

  function Cons(first: Token, rest: seq<Token>): (tokens: seq<Token>)
    ensures tokens != [] && tokens[0] == first && tokens[1..] == rest
  {
    [first] + rest
  }

  /** What a reader sees after item k - 1: a comma and the next item, or the closer and the rest. */
  function AfterItem(items: seq<Tree>, k: nat, rest: seq<Token>): seq<Token>
    requires k <= |items|
    decreases |items| - k
  {
    if k == |items| then Cons(Punctuation(']'), rest)
    else Cons(Punctuation(','), Print(items[k]) + AfterItem(items, k + 1, rest))
  }

  function MemberThen(e: Entry, after: seq<Token>): seq<Token> {
    Cons(Quoted(e.name), Cons(Punctuation(':'), Print(e.value) + after))
  }

  function AfterMember(members: seq<Entry>, k: nat, rest: seq<Token>): seq<Token>
    requires k <= |members|
    decreases |members| - k
  {
    if k == |members| then Cons(Punctuation('}'), rest)
    else Cons(Punctuation(','), MemberThen(members[k], AfterMember(members, k + 1, rest)))
  }

  lemma {:induction false} PrintItemsFrom(items: seq<Tree>, k: nat, rest: seq<Token>)
    requires 0 < k <= |items|
    ensures PrintItems(items) + Cons(Punctuation(']'), rest) == PrintItems(items[..k]) + AfterItem(items, k, rest)
    decreases |items| - k
  {
    hide Print;
    if k == |items| {
      assert items[..k] == items;
    } else {
      PrintItemsFrom(items, k + 1, rest);
      assert items[..k + 1][..k] == items[..k];
      var after := AfterItem(items, k + 1, rest);
      Assoc(PrintItems(items[..k]), COMMA + Print(items[k]), after);
      Assoc(COMMA, Print(items[k]), after);
    }
  }

  lemma MemberTokensThen(n: nat, e: Entry, after: seq<Token>)
    ensures MemberTokens(n, e) + after == CommaAfter(n) + MemberThen(e, after)
  {
    hide Print;
    var key := CommaAfter(n) + [Quoted(e.name)];
    Assoc(key + COLON, Print(e.value), after);
    Assoc(key, COLON, Print(e.value) + after);
    Assoc(CommaAfter(n), [Quoted(e.name)], COLON + (Print(e.value) + after));
  }

  lemma {:induction false} PrintMembersFrom(members: seq<Entry>, k: nat, rest: seq<Token>)
    requires 0 < k <= |members|
    ensures PrintMembers(members) + Cons(Punctuation('}'), rest)
            == PrintMembers(members[..k]) + AfterMember(members, k, rest)
    decreases |members| - k
  {
    hide Print, MemberThen;
    if k == |members| {
      assert members[..k] == members;
    } else {
      PrintMembersFrom(members, k + 1, rest);
      assert members[..k + 1][..k] == members[..k];
      var after := AfterMember(members, k + 1, rest);
      Assoc(PrintMembers(members[..k]), MemberTokens(k, members[k]), after);
      MemberTokensThen(k, members[k], after);
    }
  }

  lemma ArrayText(items: seq<Tree>, rest: seq<Token>)
    ensures Print(Arr(items)) + rest
            == Cons(Punctuation('['), if items == [] then Cons(Punctuation(']'), rest)
                                      else Print(items[0]) + AfterItem(items, 1, rest))
  {
    var close := [Punctuation(']')];
    Assoc([Punctuation('[')] + PrintItems(items), close, rest);
    Assoc([Punctuation('[')], PrintItems(items), close + rest);
    if items == [] {
      assert PrintItems(items) + (close + rest) == close + rest;
    } else {
      PrintItemsFrom(items, 1, rest);
      FirstItem(items);
    }
  }

  lemma FirstItem(items: seq<Tree>)
    requires items != []
    ensures PrintItems(items[..1]) == Print(items[0])
  {
    hide Print;
    assert items[..1][..0] == [];
    assert PrintItems([]) + (CommaAfter(0) + Print(items[0])) == Print(items[0]);
  }

  lemma ObjectText(members: seq<Entry>, rest: seq<Token>)
    ensures Print(Obj(members)) + rest
            == Cons(Punctuation('{'), if members == [] then Cons(Punctuation('}'), rest)
                                      else MemberThen(members[0], AfterMember(members, 1, rest)))
  {
    var close := [Punctuation('}')];
    Assoc([Punctuation('{')] + PrintMembers(members), close, rest);
    Assoc([Punctuation('{')], PrintMembers(members), close + rest);
    if members == [] {
      assert PrintMembers(members) + (close + rest) == close + rest;
    } else {
      PrintMembersFrom(members, 1, rest);
      FirstMember(members);
      MemberTokensThen(0, members[0], AfterMember(members, 1, rest));
      var first := MemberThen(members[0], AfterMember(members, 1, rest));
      assert [] + first == first;
    }
  }

  lemma FirstMember(members: seq<Entry>)
    requires members != []
    ensures PrintMembers(members[..1]) == MemberTokens(0, members[0])
  {
    hide Print;
    assert members[..1][..0] == [];
    assert PrintMembers([]) + MemberTokens(0, members[0]) == MemberTokens(0, members[0]);
  }

  lemma ScalarReads(scalar: Scalar)
    ensures ReadScalar(ScalarToken(scalar)) == Some(scalar) && !ScalarToken(scalar).Punctuation?
  {
  }

  /** A printed value never begins with a closer, so the reader's look-ahead is sound. */
  lemma PrintStarts(t: Tree)
    ensures Print(t) != [] && Print(t)[0] != Punctuation(']')
  {
    match t
    case Leaf(scalar) => ScalarReads(scalar);
    case Arr(items) =>
    case Obj(members) =>
  }

  lemma {:induction false} ReadsPrint(t: Tree, rest: seq<Token>)
    ensures ReadValue(Print(t) + rest) == Read(t, rest)
    decreases t, 1
  {
    match t
    case Leaf(scalar) => LeafReads(scalar, rest);
    case Arr(items) =>
      if items != [] {
        assert items[..0] == [];
        ReadsItems(items, 0, rest);
      }
      ArrayReads(items, rest);
    case Obj(members) =>
      if members != [] {
        assert members[..0] == [];
        ReadsMembers(members, 0, rest);
      }
      ObjectReads(members, rest);
  }

  lemma LeafReads(scalar: Scalar, rest: seq<Token>)
    ensures ReadValue(Print(Leaf(scalar)) + rest) == Read(Leaf(scalar), rest)
  {
    ScalarReads(scalar);
    assert Print(Leaf(scalar)) + rest == Cons(ScalarToken(scalar), rest);
  }

  lemma ArrayReads(items: seq<Tree>, rest: seq<Token>)
    requires items != [] ==> ReadItems([], Print(items[0]) + AfterItem(items, 1, rest)) == Read(Arr(items), rest)
    ensures ReadValue(Print(Arr(items)) + rest) == Read(Arr(items), rest)
  {
    ArrayText(items, rest);
    hide Print, AfterItem, ReadItems;
    if items != [] {
      PrintStarts(items[0]);
    }
  }

  lemma ObjectReads(members: seq<Entry>, rest: seq<Token>)
    requires members != []
             ==> ReadMembers([], MemberThen(members[0], AfterMember(members, 1, rest))) == Read(Obj(members), rest)
    ensures ReadValue(Print(Obj(members)) + rest) == Read(Obj(members), rest)
  {
    ObjectText(members, rest);
    hide Print, AfterMember, ReadMembers;
  }

  lemma {:induction false} ReadsItems(items: seq<Tree>, k: nat, rest: seq<Token>)
    requires k < |items|
    ensures ReadItems(items[..k], Print(items[k]) + AfterItem(items, k + 1, rest)) == Read(Arr(items), rest)
    decreases items, 0, |items| - k
  {
    hide Print, ReadValue;
    ReadsPrint(items[k], AfterItem(items, k + 1, rest));
    assert items[..k] + [items[k]] == items[..k + 1];
    if k + 1 == |items| {
      assert items[..k + 1] == items;
    } else {
      ReadsItems(items, k + 1, rest);
    }
  }

  lemma {:induction false} ReadsMembers(members: seq<Entry>, k: nat, rest: seq<Token>)
    requires k < |members|
    ensures ReadMembers(members[..k], MemberThen(members[k], AfterMember(members, k + 1, rest)))
        == Read(Obj(members), rest)
    decreases members, 0, |members| - k
  {
    hide Print, ReadValue;
    ReadsPrint(members[k].value, AfterMember(members, k + 1, rest));
    assert members[..k] + [members[k]] == members[..k + 1];
    if k + 1 == |members| {
      assert members[..k + 1] == members;
    } else {
      ReadsMembers(members, k + 1, rest);
    }
  }

  /** Rendering a tree's walk and reading the text back gives the tree. */
  lemma RenderRoundTrip(t: Tree)
    ensures ReadDocument(Erase(Flat(Render(Events(t)).outputs))) == Some(t)
  {
    hide Print, Events, Flat, Erase, Render;
    RenderWritesPrint(t);
    ReadsPrint(t, LINE_FEED);
  }
}
