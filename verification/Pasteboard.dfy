/** The clipboard queues shared by the terminal worker and the UI thread. */
module Pasteboard {
  import opened Text

  datatype Board = Board(copyQueue: seq<string>, pasteRequests: nat, pasteQueue: seq<string>)

  /** One critical section of either thread. */
  datatype Event =
    | Copy(text: string)
    | CheckCopy
    | RequestPaste
    | CheckPaste
    | PushPaste(text: string)
    | GetPaste

  /** What a critical section hands back. */
  datatype Answer = Nothing | Text(text: string) | Flag(flag: bool)

  function Next(b: Board, e: Event): Board {
    match e
    case Copy(x) => b.(copyQueue := b.copyQueue + [x])
    case CheckCopy => if b.copyQueue == [] then b else b.(copyQueue := b.copyQueue[1..])
    case RequestPaste => b.(pasteRequests := b.pasteRequests + 1)
    case CheckPaste => if b.pasteRequests == 0 then b else b.(pasteRequests := b.pasteRequests - 1)
    case PushPaste(x) => b.(pasteQueue := b.pasteQueue + [x])
    case GetPaste => if b.pasteQueue == [] then b else b.(pasteQueue := b.pasteQueue[1..])
  }

  function Reply(b: Board, e: Event): Answer {
    match e
    case CheckCopy => if b.copyQueue == [] then Nothing else Text(b.copyQueue[0])
    case CheckPaste => Flag(b.pasteRequests > 0)
    case GetPaste => if b.pasteQueue == [] then Nothing else Text(b.pasteQueue[0])
    case _ => Nothing
  }

  /** The board after a schedule of critical sections. */
  function After(b: Board, es: seq<Event>): Board
    decreases |es|
  {
    if es == [] then b else After(Next(b, es[0]), es[1..])
  }

  /** The texts answered to one kind of request, in order. */
  function Delivered(b: Board, es: seq<Event>, kind: Event): seq<string>
    decreases |es|
  {
    if es == [] then []
    else
      var rest := Delivered(Next(b, es[0]), es[1..], kind);
      if es[0] == kind && Reply(b, es[0]).Text? then [Reply(b, es[0]).text] + rest else rest
  }

  function Copied(es: seq<Event>): seq<string> {
    if es == [] then [] else (if es[0].Copy? then [es[0].text] else []) + Copied(es[1..])
  }

  function Pushed(es: seq<Event>): seq<string> {
    if es == [] then [] else (if es[0].PushPaste? then [es[0].text] else []) + Pushed(es[1..])
  }

  function Requested(es: seq<Event>): nat {
    if es == [] then 0 else (if es[0].RequestPaste? then 1 else 0) + Requested(es[1..])
  }

  /** How many `CheckPaste` calls answered true. */
  function Granted(b: Board, es: seq<Event>): nat
    decreases |es|
  {
    if es == [] then 0
    else (if Reply(b, es[0]) == Flag(true) then 1 else 0) + Granted(Next(b, es[0]), es[1..])
  }

  /** Copies are neither lost, duplicated nor reordered, under every interleaving. */
  lemma {:induction false} CopiesConserved(b: Board, es: seq<Event>)
    ensures Delivered(b, es, CheckCopy) + After(b, es).copyQueue == b.copyQueue + Copied(es)
    decreases |es|
  {
    if es != [] {
      CopiesConserved(Next(b, es[0]), es[1..]);
      var rest := Delivered(Next(b, es[0]), es[1..], CheckCopy);
      if es[0] == CheckCopy && b.copyQueue != [] {
        assert b.copyQueue == [b.copyQueue[0]] + b.copyQueue[1..];
        assert ([b.copyQueue[0]] + rest) + After(b, es).copyQueue
            == [b.copyQueue[0]] + (rest + After(b, es).copyQueue);
      }
    }
  }

  /** The same for pastes pushed by the UI and fetched by the terminal worker. */
  lemma {:induction false} PastesConserved(b: Board, es: seq<Event>)
    ensures Delivered(b, es, GetPaste) + After(b, es).pasteQueue == b.pasteQueue + Pushed(es)
    decreases |es|
  {
    if es != [] {
      PastesConserved(Next(b, es[0]), es[1..]);
      var rest := Delivered(Next(b, es[0]), es[1..], GetPaste);
      if es[0] == GetPaste && b.pasteQueue != [] {
        assert b.pasteQueue == [b.pasteQueue[0]] + b.pasteQueue[1..];
        assert ([b.pasteQueue[0]] + rest) + After(b, es).pasteQueue
            == [b.pasteQueue[0]] + (rest + After(b, es).pasteQueue);
      }
    }
  }

  /** Every paste request is either still counted or was granted exactly once. */
  lemma {:induction false} RequestsConserved(b: Board, es: seq<Event>)
    ensures Granted(b, es) + After(b, es).pasteRequests == b.pasteRequests + Requested(es)
    decreases |es|
  {
    if es != [] {
      RequestsConserved(Next(b, es[0]), es[1..]);
    }
  }

  /** How often one kind of request is made. */
  function Calls(es: seq<Event>, kind: Event): nat {
    if es == [] then 0 else (if es[0] == kind then 1 else 0) + Calls(es[1..], kind)
  }

  function Least(a: nat, b: nat): nat { if a < b then a else b }

  lemma FirstTaken(queue: seq<string>, n: nat)
    requires queue != []
    ensures queue[..Least(n + 1, |queue|)] == [queue[0]] + queue[1..][..Least(n, |queue[1..]|)]
  {
  }

  /** Without later copies, n calls of `CheckCopy` deliver the first n queued texts, or all of them. */
  lemma {:induction false} CopiesProgress(b: Board, es: seq<Event>)
    requires Copied(es) == []
    ensures Delivered(b, es, CheckCopy) == b.copyQueue[..Least(Calls(es, CheckCopy), |b.copyQueue|)]
    decreases |es|
  {
    if es != [] {
      var u := Next(b, es[0]);
      CopiesProgress(u, es[1..]);
      if es[0] == CheckCopy && b.copyQueue != [] {
        FirstTaken(b.copyQueue, Calls(es[1..], CheckCopy));
      }
    }
  }

  /** The same for pastes and `GetPaste`. */
  lemma {:induction false} PastesProgress(b: Board, es: seq<Event>)
    requires Pushed(es) == []
    ensures Delivered(b, es, GetPaste) == b.pasteQueue[..Least(Calls(es, GetPaste), |b.pasteQueue|)]
    decreases |es|
  {
    if es != [] {
      var u := Next(b, es[0]);
      PastesProgress(u, es[1..]);
      if es[0] == GetPaste && b.pasteQueue != [] {
        FirstTaken(b.pasteQueue, Calls(es[1..], GetPaste));
      }
    }
  }

  /** Without later requests, n calls of `CheckPaste` grant n pending requests, or all of them. */
  lemma {:induction false} RequestsProgress(b: Board, es: seq<Event>)
    requires Requested(es) == 0
    ensures Granted(b, es) == Least(Calls(es, CheckPaste), b.pasteRequests)
    decreases |es|
  {
    if es != [] {
      RequestsProgress(Next(b, es[0]), es[1..]);
    }
  }

  lemma {:induction false} AfterConcat(b: Board, a: seq<Event>, es: seq<Event>, kind: Event)
    ensures After(b, a + es) == After(After(b, a), es)
    ensures Delivered(b, a + es, kind) == Delivered(b, a, kind) + Delivered(After(b, a), es, kind)
    decreases |a|
  {
    if a == [] {
      assert a + es == es;
    } else {
      assert (a + es)[0] == a[0] && (a + es)[1..] == a[1..] + es;
      AfterConcat(Next(b, a[0]), a[1..], es, kind);
    }
  }

  /**
   * Whatever happened before, every text submitted until now is delivered, in order and once, as soon as
   * `CheckCopy` has been called once more for each text still queued.
   */
  lemma EveryCopyArrives(b: Board, before: seq<Event>, es: seq<Event>)
    requires Copied(es) == [] && Calls(es, CheckCopy) >= |After(b, before).copyQueue|
    ensures Delivered(b, before + es, CheckCopy) == b.copyQueue + Copied(before)
  {
    AfterConcat(b, before, es, CheckCopy);
    CopiesProgress(After(b, before), es);
    CopiesConserved(b, before);
    var queue := After(b, before).copyQueue;
    assert queue[..|queue|] == queue;
  }

  /** The globals of napi_init.cpp; each method is the body of one critical section. */
  class SharedPasteboard {
    var copyQueue: seq<string>
    var pasteRequests: nat
    var pasteQueue: seq<string>

    ghost function View(): Board
      reads this
    {
      Board(copyQueue, pasteRequests, pasteQueue)
    }

    constructor ()
      ensures View() == Board([], 0, [])
    {
      copyQueue, pasteRequests, pasteQueue := [], 0, [];
    }

    method CheckCopy() returns (res: Option<string>)
      modifies this
      ensures View() == Next(old(View()), Event.CheckCopy)
      ensures Reply(old(View()), Event.CheckCopy) == if res.Some? then Text(res.value) else Nothing
    {
      res := None;
      if copyQueue != [] {
        res := Some(copyQueue[0]);
        copyQueue := copyQueue[1..];
      }
    }

    method CheckPaste() returns (hasPaste: bool)
      modifies this
      ensures View() == Next(old(View()), Event.CheckPaste)
      ensures Reply(old(View()), Event.CheckPaste) == Flag(hasPaste)
    {
      hasPaste := false;
      if pasteRequests > 0 {
        hasPaste := true;
        pasteRequests := pasteRequests - 1;
      }
    }

    method PushPaste(s: string)
      modifies this
      ensures View() == Next(old(View()), Event.PushPaste(s))
    {
      pasteQueue := pasteQueue + [s];
    }

    method Copy(base64: string)
      modifies this
      ensures View() == Next(old(View()), Event.Copy(base64))
    {
      copyQueue := copyQueue + [base64];
    }

    /** The count of pending requests is an `int`. */
    method RequestPaste()
      requires IsInt(pasteRequests + 1)
      modifies this
      ensures View() == Next(old(View()), Event.RequestPaste)
    {
      pasteRequests := Plus(pasteRequests, 1);
    }

    /** An empty queue and a queued empty string both answer "". */
    method GetPaste() returns (res: string)
      modifies this
      ensures View() == Next(old(View()), Event.GetPaste)
      ensures res == match Reply(old(View()), Event.GetPaste) case Text(t) => t case _ => ""
    {
      res := "";
      if pasteQueue != [] {
        res := pasteQueue[0];
        pasteQueue := pasteQueue[1..];
      }
    }
  }
}
