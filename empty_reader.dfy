/**
 * `EmptyXmlReader`: an `XmlReader` with no content. Its only state is its read
 * state: it starts `Initial`, `Read` moves it to `EndOfFile` (whatever the state
 * before, a closed reader included) and answers that there is no node, and
 * `Close` moves it to `Closed`. Every other member answers the same in every
 * state: no attributes, no namespace, empty names and values, node type `None`.
 */
module EmptyReaders {
  import R = Results

  datatype ReadState = Initial | Interactive | Error | EndOfFile | Closed

  datatype XmlNodeType = None | Element | Attribute | Text | EndElement

  /** The members that change the read state. */
  datatype Operation = Read | Close

  /** The read state an operation leaves behind, from any state. */
  function Next(s: ReadState, op: Operation): ReadState {
    match op
    case Read => EndOfFile
    case Close => Closed
  }

  /** The read state after a sequence of operations. */
  function Run(s: ReadState, ops: seq<Operation>): ReadState
    decreases |ops|
  {
    if ops == [] then s else Run(Next(s, ops[0]), ops[1..])
  }

  /** Running one more operation is one more step. */
  lemma {:induction false} RunAppend(s: ReadState, ops: seq<Operation>, op: Operation)
    ensures Run(s, ops + [op]) == Next(Run(s, ops), op)
    decreases |ops|
  {
    if ops != [] {
      assert (ops + [op])[1..] == ops[1..] + [op];
      RunAppend(Next(s, ops[0]), ops[1..], op);
    }
  }

  /** The read state is decided by the last operation alone: `Initial` before any, `EndOfFile` after a read, `Closed` after a close. */
  lemma {:induction false} RunIsLastOperation(s: ReadState, ops: seq<Operation>)
    ensures ops == [] ==> Run(s, ops) == s
    ensures ops != [] ==> Run(s, ops) == Next(s, ops[|ops| - 1])
    decreases |ops|
  {
    if |ops| > 1 {
      RunIsLastOperation(Next(s, ops[0]), ops[1..]);
      assert ops[1..][|ops| - 2] == ops[|ops| - 1];
    }
  }

  /** A reader created by `Create` is `Initial` until the first operation, and is never `Interactive` nor in `Error`. */
  lemma {:induction false} ReachableStates(ops: seq<Operation>)
    ensures Run(Initial, ops) == Initial <==> ops == []
    ensures Run(Initial, ops) == EndOfFile <==> ops != [] && ops[|ops| - 1] == Read
    ensures Run(Initial, ops) == Closed <==> ops != [] && ops[|ops| - 1] == Close
    ensures Run(Initial, ops) != Interactive && Run(Initial, ops) != Error
  {
    RunIsLastOperation(Initial, ops);
  }

  /** Reading again changes nothing, and reading after closing reports the end of the file. */
  lemma {:induction false} ReadAgain(ops: seq<Operation>)
    ensures Run(Initial, ops + [Read, Read]) == Run(Initial, ops + [Read])
    ensures Run(Initial, ops + [Close, Read]) == EndOfFile
  {
    RunIsLastOperation(Initial, ops + [Read, Read]);
    RunIsLastOperation(Initial, ops + [Read]);
    RunIsLastOperation(Initial, ops + [Close, Read]);
  }

  class EmptyXmlReader {
    var state: ReadState
    /** The operations performed on this reader since it was created. */
    ghost var history: seq<Operation>

    ghost predicate Valid()
      reads this
    {
      state == Run(Initial, history)
    }

    constructor ()
      ensures Valid() && history == [] && state == Initial
    {
      state := Initial;
      history := [];
    }

    /** `Create`: a new reader, in the `Initial` state. */
    static method Create() returns (r: EmptyXmlReader)
      ensures fresh(r) && r.Valid() && r.history == [] && r.state == Initial
    {
      r := new EmptyXmlReader();
    }

    /** `Read`: there never is a node to read; the reader is at the end of its file. */
    method Read() returns (more: bool)
      requires Valid()
      modifies this
      ensures Valid() && history == old(history) + [Operation.Read]
      ensures !more && state == EndOfFile
    {
      RunAppend(Initial, history, Operation.Read);
      state := EndOfFile;
      history := history + [Operation.Read];
      more := false;
    }

    /** `Close`: the reader is closed. */
    method Close()
      requires Valid()
      modifies this
      ensures Valid() && history == old(history) + [Operation.Close]
      ensures state == Closed
    {
      RunAppend(Initial, history, Operation.Close);
      state := Closed;
      history := history + [Operation.Close];
    }

    /** `ReadState`: `Initial` before any operation, otherwise the state the last operation left. */
    function ReadStateNow(): (r: ReadState)
      reads this
      ensures Valid() && history == [] ==> r == Initial
      ensures Valid() && history != [] ==> r == Next(Initial, history[|history| - 1])
    {
      RunIsLastOperation(Initial, history);
      state
    }

    /** `EOF`: the last operation was a read. */
    function EOF(): (r: bool)
      reads this
      ensures Valid() ==> (r <==> history != [] && history[|history| - 1] == Operation.Read)
    {
      ReachableStates(history);
      state == EndOfFile
    }

    function AttributeCount(): int { 0 }
    function BaseUri(): string { "" }
    function Depth(): int { 0 }
    function HasValue(): bool { false }
    function IsEmptyElement(): bool { false }
    function LocalName(): string { "" }
    function NamespaceUri(): string { "" }
    function NodeType(): XmlNodeType { None }
    function Prefix(): string { "" }
    function Value(): string { "" }

    function GetAttribute(name: string): R.Option<string> { R.None }
    function GetAttributeNs(name: string, namespaceUri: string): R.Option<string> { R.None }
    function GetAttributeAt(index: int): R.Result<string> { R.Failure(R.ArgumentOutOfRangeException("index")) }
    function LookupNamespace(prefix: string): R.Option<string> { R.None }
    function MoveToAttribute(name: string): bool { false }
    function MoveToAttributeNs(name: string, ns: string): bool { false }
    function MoveToElement(): bool { false }
    function MoveToFirstAttribute(): bool { false }
    function MoveToNextAttribute(): bool { false }
    function ReadAttributeValue(): bool { false }
    function ResolveEntity(): R.Outcome { R.Fail(R.InvalidOperationException) }
  }

  /**
   * After any operations, the reader reports the end of the file exactly when
   * the last one was a read, and is otherwise positioned on nothing.
   */
  lemma {:induction false} Observations(r: EmptyXmlReader)
    requires r.Valid()
    ensures r.EOF() <==> r.history != [] && r.history[|r.history| - 1] == Read
    ensures r.ReadStateNow() == Initial <==> r.history == []
    ensures r.AttributeCount() == 0 && r.Depth() == 0 && r.NodeType() == None
    ensures r.BaseUri() == "" && r.LocalName() == "" && r.NamespaceUri() == "" && r.Prefix() == "" && r.Value() == ""
    ensures !r.HasValue() && !r.IsEmptyElement()
    ensures forall name :: r.GetAttribute(name) == R.None && !r.MoveToAttribute(name)
    ensures forall name, ns :: r.GetAttributeNs(name, ns) == R.None && !r.MoveToAttributeNs(name, ns)
    ensures forall prefix :: r.LookupNamespace(prefix) == R.None
    ensures forall index :: r.GetAttributeAt(index) == R.Failure(R.ArgumentOutOfRangeException("index"))
    ensures !r.MoveToElement() && !r.MoveToFirstAttribute() && !r.MoveToNextAttribute() && !r.ReadAttributeValue()
    ensures r.ResolveEntity() == R.Fail(R.InvalidOperationException)
  {
    ReachableStates(r.history);
  }
}
