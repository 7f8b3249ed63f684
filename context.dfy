/** The state shared by the pattern matchers while one source file is visited
    (packages/factory/src/core/context.rs): the file, its comments, the
    messages found so far and the counter that numbers anonymous parts. */
module Context {
  import opened Wrappers
  import opened Text
  import Messages

  /** A source file as the matchers see it: its display name and the start
      position of each of its lines. */
  datatype SourceFile = SourceFile(name: string, lines: seq<nat>)

  /** The read-only part of a context: the file (if any) and the leading
      comments attached to each source position. */
  datatype Env = Env(file: Option<SourceFile>, comments: map<nat, seq<string>>)

  // ---------------------------------------------------------------------------
  // IdentifierStore, as a function of the counter

  /** `next`: the current count in decimal, and the count after it. */
  function NextState(current: nat): (r: (string, nat))
    ensures r.1 == current + 1
    ensures AllDigits(r.0) && DigitsValue(r.0) == current
  {
    NatToStringValue(current);
    (NatToString(current), current + 1)
  }

  /** `back`: one step down, stopping at zero. */
  function BackState(current: nat): (r: nat)
    ensures current > 0 ==> r + 1 == current
    ensures current == 0 ==> r == 0
  {
    if current == 0 then 0 else current - 1
  }

  /** Handing out an identifier and taking it back restores the counter. */
  lemma BackUndoesNext(current: nat)
    ensures BackState(NextState(current).1) == current
  {
  }

  /** Identifiers handed out from different counts differ. */
  lemma NextDistinct(a: nat, b: nat)
    requires a != b
    ensures NextState(a).0 != NextState(b).0
  {
    NatToStringInjective(a, b);
  }

  /** A counter handing out decimal identifiers `"0"`, `"1"`, ... */
  class IdentifierStore {
    var current: nat

    /** `IdentifierStore::default()`. */
    constructor ()
      ensures current == 0
    {
      current := 0;
    }

    /** Returns the current count in decimal, then increments it. */
    method Next() returns (id: string)
      modifies this
      ensures (id, current) == NextState(old(current))
    {
      id := NatToString(current);
      current := current + 1;
    }

    /** Decrements the counter, saturating at zero. */
    method Back()
      modifies this
      ensures current == BackState(old(current))
    {
      if current > 0 {
        current := current - 1;
      }
    }

    method Reset()
      modifies this
      ensures current == 0
    {
      current := 0;
    }
  }

  class Context {
    const sourceFile: Option<SourceFile>
    const singleComments: map<nat, seq<string>>
    var foundMessages: seq<Messages.CompositeMessage>
    const identifierStore: IdentifierStore

    /** `Context::new`: no messages found yet and a fresh counter at zero. */
    constructor (sourceFile: Option<SourceFile>, singleComments: map<nat, seq<string>>)
      ensures this.sourceFile == sourceFile && this.singleComments == singleComments
      ensures foundMessages == [] && identifierStore.current == 0
      ensures fresh(identifierStore)
    {
      this.sourceFile := sourceFile;
      this.singleComments := singleComments;
      foundMessages := [];
      identifierStore := new IdentifierStore();
    }

    function Environment(): Env {
      Env(sourceFile, singleComments)
    }

    /** What the visitor does with a matched message (visitor.rs): record it
        and restart the numbering for the next one. */
    method Record(message: Messages.CompositeMessage)
      modifies this, identifierStore
      ensures foundMessages == old(foundMessages) + [message]
      ensures identifierStore.current == 0
    {
      foundMessages := foundMessages + [message];
      identifierStore.Reset();
    }
  }
}
