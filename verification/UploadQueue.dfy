/** The upload queue: a list of pending uploads and a lock flag, with the uploads'
    results written in place. */
module UploadQueue {
  import opened Wrappers
  import opened Collections
  import Batching

  class Message {
    const text: string // the message in its printed form, whose length is its size

    constructor (text: string)
      ensures this.text == text
    {
      this.text := text;
    }
  }

  datatype TxResponse = TxResponse(code: int, rawLog: string)

  class Upload {
    const message: Message
    const waiting: bool // whether a callback was given
    var err: Option<string>
    var response: Option<TxResponse>
    var done: nat       // calls of the callback

    constructor (message: Message, waiting: bool)
      ensures this.message == message && this.waiting == waiting
      ensures err.None? && response.None? && done == 0
    {
      this.message, this.waiting := message, waiting;
      err, response, done := None, None, 0;
    }
  }

  function Sizes(queue: seq<Upload>): (sizes: seq<nat>)
    ensures |sizes| == |queue|
  {
    seq(|queue|, i requires 0 <= i < |queue| => |queue[i].message.text|)
  }

  function Messages(queue: seq<Upload>): seq<Message> {
    seq(|queue|, i requires 0 <= i < |queue| => queue[i].message)
  }

  /** The printed forms of messages, one after the other. */
  function Printed(messages: seq<Message>): string {
    Flatten(seq(|messages|, i requires 0 <= i < |messages| => messages[i].text))
  }

  lemma PrintedMore(messages: seq<Message>, next: Message)
    ensures Printed(messages + [next]) == Printed(messages) + next.text
  {
    var texts := seq(|messages|, i requires 0 <= i < |messages| => messages[i].text);
    FlattenIs(texts, [next.text], next.text);
    assert seq(|messages + [next]|, i requires 0 <= i < |messages + [next]| => (messages + [next])[i].text)
           == texts + [next.text];
  }

  /** The sum that a batch is limited by is the length of what is sent. */
  lemma {:induction false} SizesArePrinted(queue: seq<Upload>, n: nat)
    requires n <= |queue|
    ensures Batching.Sum(Sizes(queue)[..n]) == |Printed(Messages(queue)[..n])|
  {
    if n > 0 {
      SizesArePrinted(queue, n - 1);
      Batching.SumSplit(Sizes(queue)[..n], n - 1);
      assert Sizes(queue)[..n][..n - 1] == Sizes(queue)[..n - 1];
      assert Sizes(queue)[..n][n - 1..] == [|queue[n - 1].message.text|];
      assert Batching.Sum([|queue[n - 1].message.text|]) == |queue[n - 1].message.text|;
      PrintedMore(Messages(queue)[..n - 1], queue[n - 1].message);
      assert Messages(queue)[..n] == Messages(queue)[..n - 1] + [queue[n - 1].message];
    }
  }

  /** The batch taken is within the limit, and with one more message it is not. */
  lemma FitIsFull(queue: seq<Upload>, max: int, n: nat)
    requires max >= 1 && n == Batching.Fit(Sizes(queue), max)
    ensures |Printed(Messages(queue)[..n])| <= max
    ensures n < |queue| ==> |Printed(Messages(queue)[..n]) + queue[n].message.text| > max
  {
    hide Batching.Fit, Batching.Sum, Printed;
    Batching.FitLongest(Sizes(queue), max, n);
    SizesArePrinted(queue, n);
    if n < |queue| {
      Batching.FitLongest(Sizes(queue), max, n + 1);
      SizesArePrinted(queue, n + 1);
      PrintedMore(Messages(queue)[..n], queue[n].message);
      assert Messages(queue)[..n + 1] == Messages(queue)[..n] + [queue[n].message];
    }
  }

  lemma DistinctParts(a: seq<Upload>, b: seq<Upload>)
    requires Distinct(a + b)
    ensures Distinct(a) && forall u :: u in a ==> u !in b
  {
    forall i, j | 0 <= i < j < |a| ensures a[i] != a[j] {
      assert (a + b)[i] != (a + b)[j];
    }
    forall u | u in a ensures u !in b {
      var i :| 0 <= i < |a| && a[i] == u;
      forall j | 0 <= j < |b| ensures b[j] != u {
        assert (a + b)[i] != (a + b)[|a| + j];
      }
    }
  }

  lemma PopFront(queue: seq<Upload>, during: seq<Upload>, late: seq<Upload>, n: nat)
    requires n <= |queue|
    ensures (queue + during + late)[n..] == queue[n..] + during + late
  {
  }

  /** What one transaction's results do to an upload: an error is kept, and so is
      the log of an answer with another code than 0, as an error; an answer with
      code 0 is kept as the response; no answer leaves both fields alone. */
  twostate predicate AnsweredWith(u: Upload, err: Option<string>, res: Option<TxResponse>)
    reads u
  {
    && (err.Some? ==> u.err == err && u.response == old(u.response))
    && (err.None? && res.None? ==> u.err == old(u.err) && u.response == old(u.response))
    && (err.None? && res.Some? && res.value.code == 0 ==> u.err == old(u.err) && u.response == res)
    && (err.None? && res.Some? && res.value.code != 0 ==>
          u.err == Some(res.value.rawLog) && u.response == old(u.response))
    && u.done == old(u.done) + if u.waiting then 1 else 0
  }

  class UploadQueue {
    var queue: seq<Upload>
    var locked: bool

    constructor ()
      ensures queue == [] && !locked
    {
      queue, locked := [], false;
    }

    /** Appends an upload unless its message is already queued. */
    method Append(upload: Upload)
      modifies this`queue
      ensures queue == if exists u :: u in old(queue) && u.message == upload.message
                       then old(queue) else old(queue) + [upload]
    {
      for i := 0 to |queue|
        invariant queue == old(queue)
        invariant forall j :: 0 <= j < i ==> queue[j].message != upload.message
      {
        if queue[i].message == upload.message {
          return;
        }
      }
      queue := queue + [upload];
    }

    /** The messages of the longest prefix of the queue that is within the limit;
        none if the queue is unlocked or the limit is below one. */
    method PrepareMessage(maxMessageSize: int) returns (messages: seq<Message>)
      ensures |messages| <= |queue| && messages == Messages(queue)[..|messages|]
      ensures forall i :: 0 <= i < |messages| ==> messages[i] == queue[i].message
      ensures maxMessageSize < 1 || !locked ==> messages == []
      ensures locked ==> |messages| == Batching.Fit(Sizes(queue), maxMessageSize)
      ensures maxMessageSize >= 1 && locked ==>
                var sent := Flatten(seq(|messages|, i requires 0 <= i < |messages| => messages[i].text));
                && |sent| <= maxMessageSize
                && (|messages| < |queue| ==> |sent + queue[|messages|].message.text| > maxMessageSize)
    {
      hide Batching.FitFrom, Flatten;
      messages := [];
      if maxMessageSize < 1 || !locked || queue == [] {
        if maxMessageSize >= 1 && locked {
          FitIsFull(queue, maxMessageSize, 0);
        }
        return;
      }
      ghost var sizes := Sizes(queue);
      var netMsgSize := 0;
      var i := 0;
      while i < |queue|
        invariant 0 <= i <= |queue| && messages == Messages(queue)[..i]
        invariant 0 <= netMsgSize <= maxMessageSize
        invariant Batching.Fit(sizes, maxMessageSize) ==
                  i + Batching.FitFrom(sizes[i..], netMsgSize, maxMessageSize)
      {
        var msgSize := |queue[i].message.text|;
        Batching.FitFromStep(sizes[i..], netMsgSize, maxMessageSize);
        assert sizes[i..][0] == msgSize && sizes[i..][1..] == sizes[i + 1..];
        if netMsgSize + msgSize > maxMessageSize {
          break;
        }
        netMsgSize := netMsgSize + msgSize;
        messages := messages + [queue[i].message];
        i := i + 1;
      }
      FitIsFull(queue, maxMessageSize, i);
    }

    /** Writes a transaction's results into the first `count` uploads and calls
        their callbacks once; does nothing if the queue is unlocked or too short. */
    method UpdateQueue(count: nat, err: Option<string>, res: Option<TxResponse>)
      requires Distinct(queue)
      modifies queue
      ensures !locked || queue == [] || |queue| < count ==>
                forall u :: u in queue ==> unchanged(u)
      ensures locked && queue != [] && count <= |queue| ==>
                && (forall i :: 0 <= i < count ==> AnsweredWith(queue[i], err, res))
                && (forall i :: count <= i < |queue| ==> unchanged(queue[i]))
    {
      if !locked || queue == [] || |queue| < count {
        return;
      }
      for i := 0 to count
        invariant forall j :: 0 <= j < i ==> AnsweredWith(queue[j], err, res)
        invariant forall j :: i <= j < |queue| ==> unchanged(queue[j])
      {
        var u := queue[i];
        if err.Some? {
          u.err := err;
        } else if res.Some? {
          if res.value.code != 0 {
            u.err := Some(res.value.rawLog);
          } else {
            u.response := res;
          }
        }
        if u.waiting {
          u.done := u.done + 1;
        }
      }
    }

    /** One round of the listener.  `during` and `late` are the uploads that other
        goroutines append while the transaction is sent and after the answers are
        written.  The uploads that are answered and popped are exactly those whose
        messages were sent, whatever arrives meanwhile. */
    method ListenOnce(maxSize: int, err: Option<string>, res: Option<TxResponse>,
                      during: seq<Upload>, late: seq<Upload>) returns (sent: seq<Message>)
      requires Distinct(queue + during + late)
      modifies this, queue + during
      ensures old(locked) ==> locked && queue == old(queue) && sent == []
      ensures !old(locked) ==> !locked
      ensures !old(locked) && old(queue) == [] ==> queue == [] && sent == []
      ensures !old(locked) && old(queue) != [] ==>
                var n := Batching.Fit(Sizes(old(queue)), maxSize);
                && |sent| == n <= |old(queue)|
                && (forall i :: 0 <= i < n ==> sent[i] == old(queue)[i].message)
                && queue == old(queue)[n..] + during + late
                && (forall i :: 0 <= i < n ==> AnsweredWith(old(queue)[i], err, res))
                && (forall u :: u in queue && u !in late ==> unchanged(u))
      ensures !old(locked) && old(queue) != [] ==>
                if maxSize < 1 then sent == []
                else
                  var text := Flatten(seq(|sent|, i requires 0 <= i < |sent| => sent[i].text));
                  && |text| <= maxSize
                  && (|sent| < |old(queue)| ==> |text + old(queue)[|sent|].message.text| > maxSize)
      ensures old(locked) || old(queue) == [] ==> forall u :: u in queue ==> unchanged(u)
    {
      hide Batching.Fit, Batching.FitFrom, Batching.Sum, Sizes, Flatten;
      sent := [];
      DistinctParts(queue + during, late);
      DistinctParts(queue, during);
      if locked {
        return;
      }
      locked := true;
      if queue == [] {
        locked := false;
        return;
      }
      sent := PrepareMessage(maxSize);
      queue := queue + during;
      assert forall i :: 0 <= i < |old(queue)| ==> queue[i] == old(queue)[i];
      UpdateQueue(|sent|, err, res);
      queue := queue + late;
      PopFront(old(queue), during, late, |sent|);
      queue := queue[|sent|..];
      locked := false;
    }
  }
}
