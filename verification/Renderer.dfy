/** The streaming renderer: a stack of markers turns a tree's events into the text of one JSON5 document. */
module Renderer {
  import opened Wrappers

  // ---- Events, markers and outputs ----

  /** A number as `number-class` sees it; a finite one keeps its lexeme. */
  datatype Number = Finite(lexeme: string) | Infinity | NegativeInfinity | NaN

  datatype Scalar = Null | Boolean(flag: bool) | Numeric(number: Number) | Text(text: string)

  datatype Event =
    | ArrayStart
    | ObjectStart
    | Key(name: string)
    | Value(scalar: Scalar)
    | ObjectEnd
    | ArrayEnd

  /** One piece of output text. `Quoted` is the text of `quoted`, `Lexeme` the text of a finite number. */
  datatype Token = Punctuation(c: char) | Word(word: string) | Lexeme(number: string) | Quoted(text: string)

  /** What a step emits: text, of at most a few tokens and often none, or the end of a record. */
  datatype Output = Emit(tokens: seq<Token>) | RecordEnd

  datatype Marker = ObjectOpen | Object | Member | ArrayOpen | Array | RootDone

  /** The open containers, outermost first. */
  type Stack = seq<Marker>

  /** The reasons a protocol-order failure gives. */
  datatype Reason =
    | ValueWhereKeyDue
    | KeyWhereValueDue
    | ObjectEndsAfterKey
    | ObjectNotOpen
    | ArrayNotOpen
    | MoreAfterRoot
    | NoValue
    | EndedInside

  datatype Outcome<+T> = Ok(value: T) | Fail(reason: Reason)

  datatype Transition = Transition(state: Stack, outputs: seq<Output>)

  const COMMA := [Punctuation(',')]
  const COLON := [Punctuation(':')]
  const LINE_FEED := [Punctuation('\n')]

  // ---- The definitions of render.alc, one for one ----

  /** json5-top, with None before the root value. */
  function Top(s: Stack): Option<Marker> {
    if s == [] then None else Some(s[|s| - 1])
  }

  function Pop(s: Stack): Stack
    requires s != []
  {
    s[..|s| - 1]
  }

  /** json5-mark. */
  function Mark(marker: Marker, s: Stack): Stack
    requires s != []
  {
    Pop(s) + [marker]
  }

  /** json5-done. */
  function Done(s: Stack): Stack {
    if s == [] then [RootDone]
    else if Top(s) == Some(Member) then Mark(Object, s)
    else s
  }

  /** json5-lead. */
  function Lead(s: Stack): seq<Token> {
    if Top(s) == Some(Array) then COMMA else []
  }

  /** json5-tail. */
  function Tail(s: Stack): seq<Token> {
    if s == [] then LINE_FEED else []
  }

  /** json5-opened. */
  function Opened(s: Stack): Stack {
    if Top(s) == Some(ArrayOpen) then Mark(Array, s) else s
  }

  /** json5-value. */
  function ValueState(s: Stack): Outcome<Stack> {
    if Top(s) == Some(ObjectOpen) || Top(s) == Some(Object) then Fail(ValueWhereKeyDue) else Ok(s)
  }

  /** json5-number. */
  function NumberToken(n: Number): Token {
    match n
    case Finite(lexeme) => Lexeme(lexeme)
    case Infinity => Word("Infinity")
    case NegativeInfinity => Word("-Infinity")
    case NaN => Word("NaN")
  }

  /** json5-scalar. */
  function ScalarToken(v: Scalar): Token {
    match v
    case Null => Word("null")
    case Boolean(flag) => Word(if flag then "true" else "false")
    case Numeric(n) => NumberToken(n)
    case Text(text) => Quoted(text)
  }

  /** json5-member. */
  function KeyStep(name: string, s: Stack): Outcome<Transition> {
    match Top(s)
    case Some(ObjectOpen) => Ok(Transition(Mark(Member, s), [Emit([Quoted(name)]), Emit(COLON)]))
    case Some(Object) => Ok(Transition(Mark(Member, s), [Emit(COMMA), Emit([Quoted(name)]), Emit(COLON)]))
    case _ => Fail(KeyWhereValueDue)
  }

  /** json5-ended. */
  function Ended(s: Stack, outputs: seq<Output>): seq<Output> {
    if |s| == 1 then outputs + [RecordEnd] else outputs
  }

  /** json5-closed. */
  function Closed(s: Stack, outputs: seq<Output>): Transition
    requires s != []
  {
    var s2 := Done(Pop(s));
    Transition(s2, Ended(s2, outputs))
  }

  /** The branch of json5-event that opens a container. */
  function OpenStep(s: Stack, marker: Marker, opener: char): Outcome<Transition> {
    match ValueState(s)
    case Fail(reason) => Fail(reason)
    case Ok(s1) =>
      var s2 := Opened(s1) + [marker];
      Ok(Transition(s2, Ended(s2, [Emit(Lead(s)), Emit([Punctuation(opener)])])))
  }

  /** json5-event. */
  function EventStep(s: Stack, event: Event): Outcome<Transition> {
    match event
    case ArrayStart => OpenStep(s, ArrayOpen, '[')
    case ObjectStart => OpenStep(s, ObjectOpen, '{')
    case Key(name) => KeyStep(name, s)
    case Value(scalar) =>
      (match ValueState(s)
       case Fail(reason) => Fail(reason)
       case Ok(s1) =>
         var s2 := Done(Opened(s1));
         Ok(Transition(s2, Ended(s2, [Emit(Lead(s)), Emit([ScalarToken(scalar)]), Emit(Tail(s))]))))
    case ObjectEnd =>
      if Top(s) == Some(ObjectOpen) || Top(s) == Some(Object)
      then Ok(Closed(s, [Emit([Punctuation('}')]), Emit(Tail(Pop(s)))]))
      else if Top(s) == Some(Member) then Fail(ObjectEndsAfterKey)
      else Fail(ObjectNotOpen)
    case ArrayEnd =>
      if Top(s) == Some(ArrayOpen) || Top(s) == Some(Array)
      then Ok(Closed(s, [Emit([Punctuation(']')]), Emit(Tail(Pop(s)))]))
      else Fail(ArrayNotOpen)
  }

  /** json5-step. */
  function Step(s: Stack, event: Event): Outcome<Transition> {
    if Top(s) == Some(RootDone) then Fail(MoreAfterRoot) else EventStep(s, event)
  }

  /** json5-finish. */
  function Finish(s: Stack): Outcome<seq<Output>> {
    match Top(s)
    case Some(RootDone) => Ok([])
    case None => Fail(NoValue)
    case _ => Fail(EndedInside)
  }

  /** A run: what it wrote, and how it stands. A run that fails part way has written what it wrote. */
  datatype Run<+T> = Run(outputs: seq<Output>, status: Outcome<T>)

  /** The steps of scan-emit. */
  function Steps(s: Stack, events: seq<Event>): Run<Stack>
    decreases |events|
  {
    if events == [] then Run([], Ok(s))
    else
      match Step(s, events[0])
      case Fail(reason) => Run([], Fail(reason))
      case Ok(t) =>
        var rest := Steps(t.state, events[1..]);
        Run(t.outputs + rest.outputs, rest.status)
  }

  /** json5-render, before its outputs are joined. */
  function Render(events: seq<Event>): Run<()> {
    var run := Steps([], events);
    match run.status
    case Fail(reason) => Run(run.outputs, Fail(reason))
    case Ok(s) =>
      match Finish(s)
      case Fail(reason) => Run(run.outputs, Fail(reason))
      case Ok(outputs) => Run(run.outputs + outputs, Ok(()))
  }

  // ---- Trees, their events and their text ----

  datatype Tree = Leaf(scalar: Scalar) | Arr(items: seq<Tree>) | Obj(members: seq<Entry>)

  datatype Entry = Entry(name: string, value: Tree)

  /** The walk of a tree. */
  function Events(t: Tree): seq<Event>
    decreases t, 1
  {
    match t
    case Leaf(scalar) => [Value(scalar)]
    case Arr(items) => [ArrayStart] + ItemEvents(items) + [ArrayEnd]
    case Obj(members) => [ObjectStart] + MemberEvents(members) + [ObjectEnd]
  }

  function ItemEvents(items: seq<Tree>): seq<Event>
    decreases items, 0
  {
    if items == [] then [] else ItemEvents(items[..|items| - 1]) + Events(items[|items| - 1])
  }

  function MemberEvents(members: seq<Entry>): seq<Event>
    decreases members, 0
  {
    if members == [] then []
    else
      var last := members[|members| - 1];
      MemberEvents(members[..|members| - 1]) + [Key(last.name)] + Events(last.value)
  }

  /** The recursive compact printing, JSON's syntax. */
  function Print(t: Tree): seq<Token>
    decreases t, 1
  {
    match t
    case Leaf(scalar) => [ScalarToken(scalar)]
    case Arr(items) => [Punctuation('[')] + PrintItems(items) + [Punctuation(']')]
    case Obj(members) => [Punctuation('{')] + PrintMembers(members) + [Punctuation('}')]
  }

  /** The items' texts, joined by commas. */
  function PrintItems(items: seq<Tree>): seq<Token>
    decreases items, 0
  {
    if items == [] then []
    else PrintItems(items[..|items| - 1]) + (CommaAfter(|items| - 1) + Print(items[|items| - 1]))
  }

  function PrintMembers(members: seq<Entry>): seq<Token>
    decreases members, 0
  {
    if members == [] then []
    else
      var last := members[|members| - 1];
      PrintMembers(members[..|members| - 1])
      + (CommaAfter(|members| - 1) + [Quoted(last.name)] + COLON + Print(last.value))
  }

  function CommaAfter(n: nat): seq<Token> {
    if n == 0 then [] else COMMA
  }
}
