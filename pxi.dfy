/** The ARM9 end of the PXI word channel between the two processors
    (source/arm9/hardware/pxi.c): a send FIFO, a receive FIFO, the sync
    register's two latched word counts and notify bit, the FIFO error latch,
    and the state `panic()` leaves the processor in. */
module Pxi {
  import opened Types

  /** Words each hardware FIFO holds. */
  const FifoDepth: nat := 16

  /** IPC_MAX_PARAMS: the most words that may follow a command word. */
  const IpcMaxParams: nat := 15

  /** C's `u8`. */
  type U8 = x: int | 0 <= x < 0x100

  /** The fields the IPC_CMD_*_MASK macros extract from a command word. */
  datatype Command = Command(id: U8, inBufs: U8, outBufs: U8, params: U8)

  /** `cmdBufSize`: the words that follow a command word, two per input or
      output buffer and one per inline parameter. */
  function BufSize(c: Command): nat
  {
    2 * c.inBufs + 2 * c.outBufs + c.params
  }

  /** The handler's fatal check: the command does not fit the channel, or its
      inline-parameter count is not the count the sender latched. */
  predicate Desync(c: Command, latched: U8)
  {
    BufSize(c) > IpcMaxParams || c.params != latched
  }

  function Min(a: nat, b: nat): nat
  {
    if a <= b then a else b
  }

  /** A FIFO after `ws` has been written to it word by word: a word written
      while the FIFO is full is dropped. */
  function Fill(fifo: seq<bv32>, ws: seq<bv32>): (r: seq<bv32>)
    requires |fifo| <= FifoDepth
    ensures |r| <= FifoDepth
    ensures |fifo| + |ws| <= FifoDepth ==> r == fifo + ws
    ensures |fifo| + |ws| > FifoDepth ==> |r| == FifoDepth
    ensures r[..|fifo|] == fifo
    ensures forall k :: |fifo| <= k < |r| ==> r[k] == ws[k - |fifo|]
  {
    (fifo + ws)[..Min(FifoDepth, |fifo| + |ws|)]
  }

  /** Writing `ws` sets the error latch: some word met a full FIFO. */
  predicate Overflows(fifo: seq<bv32>, ws: seq<bv32>)
  {
    |fifo| + |ws| > FifoDepth
  }

  /** Writing a sequence one word at a time is writing it whole. */
  lemma FillStep(fifo: seq<bv32>, ws: seq<bv32>, w: bv32)
    requires |fifo| <= FifoDepth
    ensures Fill(Fill(fifo, ws), [w]) == Fill(fifo, ws + [w])
    ensures (Overflows(fifo, ws) || Overflows(Fill(fifo, ws), [w])) == Overflows(fifo, ws + [w])
  {
    assert fifo + (ws + [w]) == (fifo + ws) + [w];
    if Overflows(fifo, ws) {
      assert Fill(fifo, ws) == (fifo + ws)[..FifoDepth];
      assert Fill(fifo, ws + [w]) == ((fifo + ws) + [w])[..FifoDepth];
    }
  }

  /** The number of parameter words `PXI_sendCmd` sends: none without a buffer. */
  function ArgCount(buf: Option<seq<bv32>>, words: U8): (n: U8)
    ensures buf.None? ==> n == 0
    ensures buf.Some? ==> n == words
  {
    if buf.None? then 0 else words
  }

  /** What `PXI_sendCmd` writes to the send FIFO: the command word, then the
      first `ArgCount` words of the buffer. */
  function Request(cmd: bv32, buf: Option<seq<bv32>>, words: U8): (r: seq<bv32>)
    requires buf.Some? ==> words <= |buf.value|
    ensures |r| == 1 + ArgCount(buf, words)
    ensures r[0] == cmd
    ensures buf.Some? ==> r[1..] == buf.value[..words]
  {
    [cmd] + (if buf.None? then [] else buf.value[..words])
  }

  /** The receive FIFO once the wait for a reply is over: a word already
      waiting is read first, otherwise the ARM11's reply `w` has arrived. */
  function AwaitReply(fifo: seq<bv32>, w: bv32): (r: seq<bv32>)
    ensures |r| > 0
    ensures |fifo| > 0 ==> r == fifo
  {
    if |fifo| == 0 then [w] else fifo
  }

  /** Whether `pxiIrqHandler` ends in `panic()` when the receive FIFO holds
      `fifo`, the sender latched `latched` and the error latch reads `error`:
      no command word, a desynchronised command, fewer words than the command
      announces (reading an empty FIFO sets the error latch), or an error
      already latched. */
  predicate HandlerPanics(fifo: seq<bv32>, latched: U8, error: bool, decode: bv32 -> Command)
  {
    |fifo| == 0 || Desync(decode(fifo[0]), latched) || |fifo| <= BufSize(decode(fifo[0])) || error
  }

  /** The words `pxiIrqHandler` hands to `IPC_handleCmd` when it does not panic. */
  function HandlerArgs(fifo: seq<bv32>, latched: U8, decode: bv32 -> Command): (args: seq<bv32>)
    requires !HandlerPanics(fifo, latched, false, decode)
    ensures |args| == BufSize(decode(fifo[0])) <= IpcMaxParams
    ensures fifo[..1 + |args|] == [fifo[0]] + args
  {
    fifo[1..1 + BufSize(decode(fifo[0]))]
  }

  /** A request shaped as this file's `PXI_sendCmd` sends it (the command
      word, then `words` buffer words, with `words` latched in the sync
      register), arriving in an otherwise empty receive FIFO: the handler
      dispatches it exactly when the command carries no buffers and announces
      `words` inline parameters, and then hands over the buffer's words. The
      ARM11 sender is not part of this model; the lemma is about a sender
      that latches the number of words it sends, as this one does. */
  lemma {:induction false} LatchedRequestDispatch(cmd: bv32, buf: seq<bv32>, words: U8, decode: bv32 -> Command)
    requires words <= IpcMaxParams && words <= |buf|
    ensures var c := decode(cmd);
      (!HandlerPanics(Request(cmd, Some(buf), words), words, false, decode) <==>
       c.inBufs == 0 && c.outBufs == 0 && c.params == words)
    ensures !HandlerPanics(Request(cmd, Some(buf), words), words, false, decode) ==>
      HandlerArgs(Request(cmd, Some(buf), words), words, decode) == buf[..words]
  {
    var r := Request(cmd, Some(buf), words);
    assert r[0] == cmd;
    if !HandlerPanics(r, words, false, decode) {
      assert r[1..] == buf[..words];
      assert r[1..1 + BufSize(decode(cmd))] == r[1..];
    }
  }

  /** The ARM9 side of the channel. `sendFifo` holds the words written to
      REG_PXI_SEND9 that the ARM11 has not read yet; `recvFifo` the words the
      ARM11 sent that REG_PXI_RECV9 has not returned yet. */
  class Channel {
    var sendFifo: seq<bv32>
    var recvFifo: seq<bv32>
    /** PXI_DATA_RECEIVED(REG_PXI_SYNC9): the count the ARM11 latched. */
    var received: U8
    /** The count this side latched with PXI_DATA_SENT. */
    var sent: U8
    /** PXI_NOTIFY_11 has been raised. */
    var notified: bool
    /** PXI_EMPTY_FULL_ERROR: a write met a full FIFO or a read an empty one. */
    var error: bool
    /** `panic()` has been entered; it never returns. */
    var halted: bool

    ghost predicate Valid()
      reads this
    {
      |sendFifo| <= FifoDepth && |recvFifo| <= FifoDepth
    }

    /** `REG_PXI_SEND9 = w`. */
    method Push(w: bv32)
      requires Valid()
      modifies this
      ensures Valid()
      ensures sendFifo == Fill(old(sendFifo), [w])
      ensures error == (old(error) || Overflows(old(sendFifo), [w]))
      ensures recvFifo == old(recvFifo) && received == old(received) && sent == old(sent)
      ensures notified == old(notified) && halted == old(halted)
    {
      if |sendFifo| < FifoDepth {
        sendFifo := sendFifo + [w];
      } else {
        error := true;
      }
    }

    /** A read of REG_PXI_RECV9; on an empty FIFO the value read is
        unspecified and the error latch is set. */
    method Pop() returns (w: bv32)
      requires Valid()
      modifies this
      ensures Valid()
      ensures |old(recvFifo)| > 0 ==> w == old(recvFifo)[0] && recvFifo == old(recvFifo)[1..] && error == old(error)
      ensures |old(recvFifo)| == 0 ==> recvFifo == [] && error
      ensures sendFifo == old(sendFifo) && received == old(received) && sent == old(sent)
      ensures notified == old(notified) && halted == old(halted)
    {
      if |recvFifo| > 0 {
        w := recvFifo[0];
        recvFifo := recvFifo[1..];
      } else {
        w := *;
        error := true;
      }
    }

    /** The writes of one request: the command word, then its argument
        words one at a time, each into REG_PXI_SEND9. */
    method PushRequest(cmd: bv32, args: seq<bv32>)
      requires Valid() && |sendFifo| < FifoDepth
      modifies this
      ensures Valid()
      ensures sendFifo == Fill(old(sendFifo), [cmd] + args)
      ensures error == (old(error) || Overflows(old(sendFifo), [cmd] + args))
      ensures recvFifo == old(recvFifo) && received == old(received) && sent == old(sent)
      ensures notified == old(notified) && halted == old(halted)
    {
      ghost var start := sendFifo;
      Push(cmd);
      var i := 0;
      while i < |args|
        invariant 0 <= i <= |args|
        invariant Valid()
        invariant sendFifo == Fill(start, [cmd] + args[..i])
        invariant error == (old(error) || Overflows(start, [cmd] + args[..i]))
        invariant recvFifo == old(recvFifo) && received == old(received) && sent == old(sent)
        invariant notified == old(notified) && halted == old(halted)
      {
        FillStep(start, [cmd] + args[..i], args[i]);
        assert ([cmd] + args[..i]) + [args[i]] == [cmd] + args[..i + 1];
        Push(args[i]);
        i := i + 1;
      }
      assert args[..i] == args;
    }

    /** PXI_sendCmd. The wait for room in the send FIFO is its precondition;
        the wait for a reply ends when `peerReply`, the ARM11's answer, has
        arrived (a word already waiting is read instead). */
    method SendCmd(cmd: bv32, buf: Option<seq<bv32>>, words: U8, peerReply: bv32) returns (reply: bv32)
      requires Valid() && !halted
      requires buf.Some? ==> words <= IpcMaxParams && words <= |buf.value|
      requires |sendFifo| < FifoDepth
      modifies this
      ensures Valid()
      ensures sendFifo == Fill(old(sendFifo), Request(cmd, buf, words))
      ensures halted == (old(error) || Overflows(old(sendFifo), Request(cmd, buf, words)))
      ensures !halted ==> !error && sent == ArgCount(buf, words) && notified
      ensures !halted ==> reply == AwaitReply(old(recvFifo), peerReply)[0]
      ensures !halted ==> recvFifo == AwaitReply(old(recvFifo), peerReply)[1..]
      ensures halted ==> recvFifo == old(recvFifo) && sent == old(sent) && notified == old(notified)
      ensures received == old(received)
    {
      var n := ArgCount(buf, words);
      var args := if buf.Some? then buf.value[..n] else [];
      assert [cmd] + args == Request(cmd, buf, words);
      PushRequest(cmd, args);
      if error {
        halted := true;
        reply := *;
        return;
      }
      sent := n;
      notified := true;
      if |recvFifo| == 0 {
        recvFifo := [peerReply];
      }
      reply := Pop();
    }

    /** pxiIrqHandler: read a command word, check it against the latched
        count, drain its parameter words into a local buffer and write back
        the single word `handle` (IPC_handleCmd) returns. `decode` stands for
        the IPC_CMD_*_MASK macros. */
    method HandleIrq(decode: bv32 -> Command, handle: (U8, U8, U8, seq<bv32>) -> bv32)
      requires Valid() && !halted
      modifies this
      ensures Valid()
      ensures halted == HandlerPanics(old(recvFifo), old(received), old(error), decode)
      ensures !halted ==>
        var c := decode(old(recvFifo)[0]);
        var reply := handle(c.id, c.inBufs, c.outBufs, HandlerArgs(old(recvFifo), old(received), decode));
        recvFifo == old(recvFifo)[1 + BufSize(c)..] &&
        sendFifo == Fill(old(sendFifo), [reply]) &&
        error == Overflows(old(sendFifo), [reply])
      ensures received == old(received) && sent == old(sent) && notified == old(notified)
    {
      ghost var fifo := recvFifo;
      ghost var rest: seq<bv32> := if |fifo| > 0 then fifo[1..] else [];
      var code := Pop();
      ghost var error0 := error;
      var c := decode(code);
      var n := BufSize(c);
      if n > IpcMaxParams || c.params != received {
        halted := true;
        return;
      }
      var args := new bv32[IpcMaxParams];
      var i := 0;
      while i < n
        invariant 0 <= i <= n <= IpcMaxParams
        invariant Valid() && !halted
        invariant i <= |rest| ==> recvFifo == rest[i..] && args[..i] == rest[..i] && error == error0
        invariant i > |rest| ==> recvFifo == [] && error
        invariant sendFifo == old(sendFifo) && received == old(received)
        invariant sent == old(sent) && notified == old(notified)
      {
        var w := Pop();
        args[i] := w;
        i := i + 1;
      }
      if error {
        halted := true;
        return;
      }
      assert args[..n] == HandlerArgs(fifo, old(received), decode);
      Push(handle(c.id, c.inBufs, c.outBufs, args[..n]));
    }
  }
}
