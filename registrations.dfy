/**
 * The callback registrations of conversation.py: which handler the client calls for
 * each server message kind. The client itself is not part of this model; only the
 * table is, read as "kind -> handlers in registration order".
 */
module Registrations {
  import opened Wrappers
  import ServerMessages

  /** The three callbacks registered with the client. */
  datatype Handler = OnBinary | OnMessage | OnError

  /** The registrations, in the order they are made. */
  const Registered: seq<(string, Handler)> := [
    ("AddAudio", OnBinary),
    ("AddTranscript", OnMessage),
    ("ResponseCompleted", OnMessage),
    ("ResponseInterrupted", OnMessage),
    ("Error", OnError),
    ("Warning", OnError)
  ]

  /** The handlers registered for `kind` in `table`, in registration order. */
  function HandlersFor(kind: string, table: seq<(string, Handler)>): (hs: seq<Handler>)
    ensures |hs| <= |table|
    ensures forall h :: h in hs <==> (kind, h) in table
  {
    if table == [] then []
    else
      var here := if table[0].0 == kind then [table[0].1] else [];
      var later := HandlersFor(kind, table[1..]);
      assert forall e :: e in table <==> e == table[0] || e in table[1..];
      here + later
  }

  /** A single registration contributes its handler exactly when its kind matches. */
  lemma HandlersForOne(kind: string, k: string, h: Handler)
    ensures HandlersFor(kind, [(k, h)]) == if k == kind then [h] else []
  {
    assert [(k, h)][1..] == [];
  }

  /** Handlers are collected in registration order, with repetitions kept: the handlers
      of a table made of two parts are those of the first part followed by those of the
      second. */
  lemma {:induction false} HandlersForAppend(kind: string, a: seq<(string, Handler)>, b: seq<(string, Handler)>)
    ensures HandlersFor(kind, a + b) == HandlersFor(kind, a) + HandlersFor(kind, b)
  {
    if a == [] {
      assert a + b == b;
    } else {
      assert (a + b)[0] == a[0];
      assert (a + b)[1..] == a[1..] + b;
      HandlersForAppend(kind, a[1..], b);
    }
  }

  /** The six registered kinds, each registered exactly once. */
  lemma RegisteredKindsDistinct()
    ensures |Registered| == 6
    ensures forall i :: 0 <= i < |Registered| ==>
      Registered[i].0 in {"AddAudio", "AddTranscript", "ResponseCompleted", "ResponseInterrupted", "Error", "Warning"}
    ensures forall i, j :: 0 <= i < j < |Registered| ==> Registered[i].0 != Registered[j].0
  {
  }

  /** A kind nobody registered for reaches no handler: the message is dropped. */
  lemma UnregisteredKindIsDropped(kind: string)
    requires kind !in {"AddAudio", "AddTranscript", "ResponseCompleted", "ResponseInterrupted", "Error", "Warning"}
    ensures HandlersFor(kind, Registered) == []
  {
    NoEntryNoHandler(kind, Registered);
  }

  lemma {:induction false} NoEntryNoHandler(kind: string, table: seq<(string, Handler)>)
    requires forall i :: 0 <= i < |table| ==> table[i].0 != kind
    ensures HandlersFor(kind, table) == []
  {
    if table != [] {
      NoEntryNoHandler(kind, table[1..]);
    }
  }

  /** Every message a text handler would print for is routed to that handler, and to it
      alone: the registrations cover the kinds the handlers react to. */
  lemma HandledKindsAreRouted(msg: ServerMessages.Message)
    requires msg.Dict? && msg.kind.Some?
    ensures ServerMessages.MessageHandler(msg).Some? ==> HandlersFor(msg.kind.value, Registered) == [OnMessage]
    ensures ServerMessages.ErrorHandler(msg).Some? ==> HandlersFor(msg.kind.value, Registered) == [OnError]
  {
    var k := msg.kind.value;
    if ServerMessages.MessageHandler(msg).Some? {
      assert k in {"AddTranscript", "ResponseCompleted", "ResponseInterrupted"};
      var i := if k == "AddTranscript" then 1 else if k == "ResponseCompleted" then 2 else 3;
      SingleEntry(k, Registered, i);
    }
    if ServerMessages.ErrorHandler(msg).Some? {
      assert k in {"Error", "Warning"};
      var i := if k == "Error" then 4 else 5;
      SingleEntry(k, Registered, i);
    }
  }

  /** A kind registered once has exactly the one handler registered for it. */
  lemma {:induction false} SingleEntry(kind: string, table: seq<(string, Handler)>, i: nat)
    requires i < |table| && table[i].0 == kind
    requires forall j :: 0 <= j < |table| && j != i ==> table[j].0 != kind
    ensures HandlersFor(kind, table) == [table[i].1]
  {
    if i == 0 {
      NoEntryNoHandler(kind, table[1..]);
    } else {
      SingleEntry(kind, table[1..], i - 1);
    }
  }
}
