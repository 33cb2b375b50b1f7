// `send_safe`: the length-checked "send all" loop of the chat command layer.
// The kernel's `send` is an oracle: a finite sequence of replies, one per
// call, that the loop consumes in order.
module Transport {

  /** The longest message `send_safe` agrees to send. */
  const MaxMessageLength: nat := 1024

  /** What one call of `send` reports: a count of bytes written, an
      interruption (EINTR), a full socket buffer (EAGAIN or EWOULDBLOCK), or
      any other error. */
  datatype SendReply = Sent(count: nat) | Interrupted | WouldBlock | Failed

  /** How a `send_safe` call ends. `Stalled` means the oracle ran out while
      bytes were still left: the source would still be looping (blocked, or
      spinning on replies of zero bytes). */
  datatype SendStatus = Delivered | TooLong | SendFailed | Stalled

  /** The status of a call together with the chunks `send` accepted, in order. */
  datatype Transfer = Transfer(status: SendStatus, chunks: seq<string>)

  /** The concatenation of the chunks, in order. */
  function Concat(cs: seq<string>): string
  {
    if cs == [] then [] else Concat(cs[..|cs| - 1]) + cs[|cs| - 1]
  }

  /** Bytes taken by a reply of `n` when `left` bytes were offered: `send`
      never reports more than it was asked to write. */
  function Accepted(n: nat, left: nat): (k: nat)
    ensures k <= left && (n <= left ==> k == n)
  {
    if n <= left then n else left
  }

  /** The loop of `send_safe` from the point where `rest` is still unsent. */
  function Pump(rest: string, replies: seq<SendReply>): Transfer
    decreases |replies|
  {
    if rest == [] then Transfer(Delivered, [])
    else if replies == [] then Transfer(Stalled, [])
    else match replies[0]
      case Sent(n) =>
        var k := Accepted(n, |rest|);
        var t := Pump(rest[k..], replies[1..]);
        Transfer(t.status, [rest[..k]] + t.chunks)
      case Failed => Transfer(SendFailed, [])
      case _ => Pump(rest, replies[1..])
  }

  /** `send_safe` as a function of the message and the kernel's replies. */
  function Transmit(msg: string, replies: seq<SendReply>): (r: Transfer)
    ensures r.status == TooLong <==> |msg| > MaxMessageLength
    ensures r.status == TooLong ==> r.chunks == []
  {
    if |msg| > MaxMessageLength then Transfer(TooLong, [])
    else
      PumpSendsPrefix(msg, replies);
      Pump(msg, replies)
  }

  lemma {:induction false} ConcatPrepend(c: string, cs: seq<string>)
    ensures Concat([c] + cs) == c + Concat(cs)
    decreases |cs|
  {
    if cs != [] {
      var front := cs[..|cs| - 1];
      assert ([c] + cs)[..|cs|] == [c] + front;
      ConcatPrepend(c, front);
    } else {
      assert [c] + cs == [c];
      assert [c][..0] == [];
    }
  }

  /** Whatever the replies, the chunks handed over spell a prefix of the
      unsent text, never touch it when the loop does not deliver, and spell
      all of it exactly when the loop delivers. */
  lemma {:induction false} PumpSendsPrefix(rest: string, replies: seq<SendReply>)
    ensures |Concat(Pump(rest, replies).chunks)| <= |rest|
    ensures Concat(Pump(rest, replies).chunks) == rest[..|Concat(Pump(rest, replies).chunks)|]
    ensures Pump(rest, replies).status == Delivered ==> Concat(Pump(rest, replies).chunks) == rest
    ensures Pump(rest, replies).status in {Delivered, SendFailed, Stalled}
    decreases |replies|
  {
    if rest == [] || replies == [] {
    } else {
      match replies[0]
      case Sent(n) =>
        var k := Accepted(n, |rest|);
        PumpSendsPrefix(rest[k..], replies[1..]);
        var t := Pump(rest[k..], replies[1..]);
        ConcatPrepend(rest[..k], t.chunks);
        assert rest == rest[..k] + rest[k..];
      case Failed =>
      case Interrupted =>
        PumpSendsPrefix(rest, replies[1..]);
      case WouldBlock =>
        PumpSendsPrefix(rest, replies[1..]);
    }
  }

  /** `send_safe` rejects exactly the oversized messages, and then sends
      nothing; when it reports success, the bytes handed to `send` are the
      message, in order. */
  lemma TransmitSpec(msg: string, replies: seq<SendReply>)
    ensures Transmit(msg, replies).status == TooLong <==> |msg| > MaxMessageLength
    ensures Transmit(msg, replies).status == TooLong ==> Transmit(msg, replies).chunks == []
    ensures Transmit(msg, replies).status == Delivered ==> Concat(Transmit(msg, replies).chunks) == msg
    ensures Concat(Transmit(msg, replies).chunks) <= msg
  {
    if |msg| <= MaxMessageLength {
      PumpSendsPrefix(msg, replies);
    }
  }

  /** `send_safe`: refuse an oversized message, otherwise call `send` on the
      unsent remainder until nothing is left. `lefts` records the value of
      `left` at each test of the loop condition. */
  method SendSafe(msg: string, replies: seq<SendReply>)
    returns (status: SendStatus, chunks: seq<string>, ghost lefts: seq<nat>)
    ensures Transfer(status, chunks) == Transmit(msg, replies)
    ensures status == TooLong <==> |msg| > MaxMessageLength
    ensures status == TooLong ==> chunks == []
    ensures status == Delivered ==> Concat(chunks) == msg
    ensures Concat(chunks) <= msg
    ensures forall j :: 0 < j < |lefts| ==> lefts[j] <= lefts[j - 1]
    ensures status != TooLong ==> |lefts| > 0 && lefts[0] == |msg|
    ensures status == Delivered ==> lefts[|lefts| - 1] == 0
  {
    lefts := [];
    chunks := [];
    if |msg| > MaxMessageLength {
      status := TooLong;
      return;
    }
    var sent: nat := 0;    // how far `buf` has advanced into the message
    var left: nat := |msg|;
    var i := 0;            // replies consumed so far
    lefts := [left];
    while left > 0
      invariant 0 <= i <= |replies|
      invariant sent + left == |msg|
      invariant Concat(chunks) == msg[..sent]
      invariant Pump(msg, replies).status == Pump(msg[sent..], replies[i..]).status
      invariant Pump(msg, replies).chunks == chunks + Pump(msg[sent..], replies[i..]).chunks
      invariant |lefts| > 0 && lefts[0] == |msg| && lefts[|lefts| - 1] == left
      invariant forall j :: 0 < j < |lefts| ==> lefts[j] <= lefts[j - 1]
      decreases |replies| - i
    {
      if i == |replies| {
        status := Stalled;
        assert msg[sent..] != [] && replies[i..] == [];
        return;
      }
      var reply := replies[i];
      assert replies[i..][0] == reply && replies[i..][1..] == replies[i + 1..];
      i := i + 1;
      match reply {
        case Failed =>
          status := SendFailed;
          return;
        case Interrupted =>
        case WouldBlock =>
        case Sent(n) =>
          var k := Accepted(n, left);
          assert msg[sent..][..k] == msg[sent..sent + k];
          assert msg[sent..][k..] == msg[sent + k..];
          assert msg[..sent + k] == msg[..sent] + msg[sent..sent + k];
          assert (chunks + [msg[sent..sent + k]])[..|chunks|] == chunks;
          chunks := chunks + [msg[sent..sent + k]];
          sent := sent + k;
          left := left - k;
      }
      lefts := lefts + [left];
    }
    assert msg[sent..] == [];
    assert msg[..sent] == msg;
    status := Delivered;
  }

}
