/**
 The serial port as an abstract transport. Everything the controller
 does to the port is recorded, in order, as an event of a trace; the
 byte-level link itself is not modelled.
 */
module Transport {

  datatype Event =
    | Open(name: string)        // the named port was opened
    | OpenFailed(name: string)  // opening the named port failed
    | Dropped                   // a freshly opened port reported itself as no longer open
    | Close                     // the current port was closed
    | CloseFailed               // closing the current port failed: it stays open
    | CloseIdle                 // close() on a port that is not open: nothing is released
    | Write(data: string)       // the characters of data were written to the port
    | Await                     // polled until the device had bytes available

  /** The strings written, in order. */
  function Writes(t: seq<Event>): (w: seq<string>)
    ensures |w| <= |t|
  {
    if |t| == 0 then []
    else
      var last := t[|t| - 1];
      Writes(t[..|t| - 1]) + (if last.Write? then [last.data] else [])
  }

  /** A trace without Write events writes nothing. */
  lemma {:induction false} WritesNone(t: seq<Event>)
    requires forall i :: 0 <= i < |t| ==> !t[i].Write?
    ensures Writes(t) == []
    decreases |t|
  {
    if |t| > 0 {
      WritesNone(t[..|t| - 1]);
    }
  }

  /** The strings written are exactly the data of the Write events. */
  lemma {:induction false} WritesContents(t: seq<Event>, d: string)
    ensures d in Writes(t) <==> Write(d) in t
    decreases |t|
  {
    if |t| > 0 {
      var t' := t[..|t| - 1];
      WritesContents(t', d);
      assert t == t' + [t[|t| - 1]];
    }
  }

  /** Writes distributes over concatenation of traces. */
  lemma {:induction false} WritesAppend(t: seq<Event>, u: seq<Event>)
    ensures Writes(t + u) == Writes(t) + Writes(u)
    decreases |u|
  {
    if |u| == 0 {
      assert t + u == t;
    } else {
      var u' := u[..|u| - 1];
      assert (t + u)[..|t + u| - 1] == t + u';
      WritesAppend(t, u');
    }
  }

  /** The number of live handles after event e, when n were live before it. */
  function Count(n: nat, e: Event): nat
  {
    match e
    case Open(_) => n + 1
    case Close => if n == 0 then 0 else n - 1
    case Dropped => if n == 0 then 0 else n - 1
    case _ => n
  }

  /**
   The number of port handles live after the events of t: an Open makes
   one more, a Close or a Dropped releases one (if any is live), a
   CloseFailed or a CloseIdle releases none.
   */
  function LiveHandles(t: seq<Event>): nat
  {
    if |t| == 0 then 0 else Count(LiveHandles(t[..|t| - 1]), t[|t| - 1])
  }

  /** After every prefix of t, at most one handle is live. */
  predicate NeverTwoLive(t: seq<Event>)
  {
    LiveHandles(t) <= 1 && (|t| == 0 || NeverTwoLive(t[..|t| - 1]))
  }

  /** The count of live handles after u, starting from n live handles. */
  function Replay(n: nat, u: seq<Event>): nat
    decreases |u|
  {
    if |u| == 0 then n else Replay(Count(n, u[0]), u[1..])
  }

  /** Starting from n live handles, the count stays at most one throughout u. */
  predicate StaysSingle(n: nat, u: seq<Event>)
    decreases |u|
  {
    n <= 1 && (|u| == 0 || StaysSingle(Count(n, u[0]), u[1..]))
  }

  /** Extending a trace: the live count and the at-most-one property follow the replay of the extension. */
  lemma {:induction false} ExtendTrace(t: seq<Event>, u: seq<Event>)
    ensures LiveHandles(t + u) == Replay(LiveHandles(t), u)
    ensures NeverTwoLive(t + u) <==> NeverTwoLive(t) && StaysSingle(LiveHandles(t), u)
    decreases |u|
  {
    if |u| == 0 {
      assert t + u == t;
    } else {
      var t' := t + [u[0]];
      assert t'[..|t|] == t;
      assert t + u == t' + u[1..];
      ExtendTrace(t', u[1..]);
    }
  }

  /** NeverTwoLive agrees with its direct reading: no prefix leaves two handles live. */
  lemma {:induction false} NeverTwoLivePrefixes(t: seq<Event>)
    ensures NeverTwoLive(t) <==> forall k :: 0 <= k <= |t| ==> LiveHandles(t[..k]) <= 1
    decreases |t|
  {
    if |t| > 0 {
      var t' := t[..|t| - 1];
      NeverTwoLivePrefixes(t');
      assert t[..|t|] == t;
      assert forall k :: 0 <= k <= |t'| ==> t'[..k] == t[..k];
    }
  }

  /** Appending u to t keeps t as a prefix; the first and last events of u are found after it. */
  lemma AppendEnds(t: seq<Event>, u: seq<Event>)
    requires |u| >= 1
    ensures |t + u| > |t| && (t + u)[..|t|] == t
    ensures (t + u)[|t|] == u[0] && (t + u)[|t + u| - 1] == u[|u| - 1]
    ensures |u| >= 4 ==> (t + u)[|t + u| - 4..] == u[|u| - 4..]
  {
  }

  /** Past a leading pair, the i-th event is the (i - 2)-th of the rest. */
  lemma AfterPair(a: Event, b: Event, rest: seq<Event>, i: nat)
    requires 2 <= i < |rest| + 2
    ensures ([a, b] + rest)[i] == rest[i - 2]
  {
  }

  /** The i-th event of u, read after a prefix t. */
  lemma AfterPrefix(t: seq<Event>, u: seq<Event>, i: nat)
    requires i < |u|
    ensures (t + u)[|t| + i] == u[i]
  {
  }
}
