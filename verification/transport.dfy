/** The framed I/O primitives over a scripted socket: the partial-write send
    loop, and the fixed-size receive loop with its stall counter. A script
    lists what successive `send` / `RecvRaw` calls return; nothing here talks
    to an operating system. */
module Transport {
  import opened Bytes

  function Min(a: int, b: int): (m: int)
    ensures m <= a && m <= b && (m == a || m == b)
  {
    if a <= b then a else b
  }

  /* ---------------- SendRaw ---------------- */

  /** What `send` accepts when offered `remaining` bytes and the script says
      `reply`: nothing but a failure for a negative reply, else at most the
      bytes offered. */
  function Accepted(reply: int, remaining: int): (n: int)
    requires remaining > 0
    ensures reply >= 0 ==> 0 <= n <= remaining && (n == reply || n == remaining)
  {
    Min(reply, remaining)
  }

  /** The send loop as a reference definition: the number of `send` calls
      that complete `size` bytes starting from `total`, or `None` when a call
      fails (a negative reply, or the script runs out) first. */
  function SendCalls(size: int, replies: seq<int>, k: nat, total: int): (r: Option<nat>)
    requires k <= |replies|
    ensures r.Some? ==> k <= r.value <= |replies|
    decreases |replies| - k
  {
    if total >= size then Some(k)
    else if k == |replies| || replies[k] < 0 then None
    else SendCalls(size, replies, k + 1, total + Accepted(replies[k], size - total))
  }

  /** A sender whose every call moves at least one byte, and whose script
      offers at least `size - total` bytes in all, completes. */
  lemma {:induction false} SendCallsCompletes(size: int, replies: seq<int>, k: nat, total: int)
    requires k <= |replies|
    requires forall j :: k <= j < |replies| ==> replies[j] > 0
    requires total + SumFrom(replies, k) >= size
    ensures SendCalls(size, replies, k, total).Some?
    decreases |replies| - k
  {
    if total < size {
      assert k < |replies|;
      var n := Accepted(replies[k], size - total);
      assert n == replies[k] || total + n >= size;
      SendCallsCompletes(size, replies, k + 1, total + n);
    }
  }

  /** The sum of the script from position k on. */
  function SumFrom(replies: seq<int>, k: nat): (s: int)
    requires k <= |replies|
    ensures (forall j :: k <= j < |replies| ==> replies[j] >= 0) ==> s >= 0
    decreases |replies| - k
  {
    if k == |replies| then 0 else replies[k] + SumFrom(replies, k + 1)
  }

  /** `SendRaw`: a null pointer or a non-positive size fails before any
      call; otherwise the loop offers the remaining bytes until all are
      accepted or a call fails. `chunks` are the byte ranges the calls
      accepted, in order. */
  method SendRaw(data: Option<seq<byte>>, size: int, replies: seq<int>)
    returns (ok: bool, chunks: seq<seq<byte>>)
    requires data.Some? && size > 0 ==> |data.value| >= size
    ensures data.None? || size <= 0 ==> !ok && chunks == []
    ensures data.Some? && size > 0 ==> (ok <==> SendCalls(size, replies, 0, 0).Some?)
    ensures ok ==> data.Some? && size > 0 && Flatten(chunks) == data.value[..size]
    ensures ok ==> |chunks| == SendCalls(size, replies, 0, 0).value
    ensures !ok && data.Some? && size > 0 ==> Flatten(chunks) < data.value[..size]
  {
    if data.None? || size <= 0 {
      return false, [];
    }
    var bytes := data.value;
    var total := 0;
    var k := 0;
    chunks := [];
    while total < size
      invariant 0 <= total <= size && k <= |replies| && |chunks| == k
      invariant Flatten(chunks) == bytes[..total]
      invariant SendCalls(size, replies, k, total) == SendCalls(size, replies, 0, 0)
      decreases |replies| - k
    {
      if k == |replies| || replies[k] < 0 {
        return false, chunks;
      }
      var n := Accepted(replies[k], size - total);
      FlattenAppend(chunks, bytes[total..total + n]);
      assert bytes[..total] + bytes[total..total + n] == bytes[..total + n];
      chunks := chunks + [bytes[total..total + n]];
      total := total + n;
      k := k + 1;
    }
    assert bytes[..total] == bytes[..size];
    return true, chunks;
  }

  /* ---------------- RecvInteger / RecvString ---------------- */

  /** The number of receive attempts that may return nothing before the
      loop gives up on the next one. */
  const RecvTrials: nat := 3

  /** How a receive loop ended: the bytes counted, the zero-byte reads seen,
      whether the count hit the expected size exactly, and how many script
      entries were used. */
  datatype RecvOutcome = RecvOutcome(total: int, zeroReads: nat, complete: bool, consumed: nat)

  /** One `RecvRaw` call asked for `request` bytes: a non-positive request
      reads nothing without touching the socket, a script past its end is a
      closed connection (0), a negative reply is the -1 of a failed select or
      recv, and otherwise the call delivers at most what was asked for. */
  function ReadCount(request: int, replies: seq<int>, k: nat): (r: (int, nat))
    requires k <= |replies|
    ensures k <= r.1 <= |replies| && r.1 <= k + 1
    ensures request <= 0 || k == |replies| ==> r == (0, k)
    ensures r.0 >= -1
    ensures request > 0 && k < |replies| && replies[k] >= 0 ==> 0 <= r.0 <= request
  {
    if request <= 0 || k == |replies| then (0, k)
    else if replies[k] < 0 then (-1, k + 1)
    else (Min(replies[k], request), k + 1)
  }

  /** The receive loop exactly as written: each request is the expected size
      minus the PREVIOUS call's count (`last`), not minus the running total;
      the stall counter is never reset; the fourth zero-byte read gives up;
      only an exact hit on the expected size completes. */
  function RecvLoop(expected: int, replies: seq<int>, k: nat, last: int, total: int, trial: nat)
    : (r: RecvOutcome)
    requires k <= |replies| && trial <= RecvTrials
    requires total == expected ==> trial < RecvTrials
    ensures r.complete <==> r.total == expected
    ensures r.zeroReads <= RecvTrials + 1
    ensures !r.complete ==> r.zeroReads == RecvTrials + 1
    ensures k <= r.consumed <= |replies|
    decreases |replies| - k, RecvTrials - trial
  {
    var (count, k') := ReadCount(expected - last, replies, k);
    if count == 0 && trial == RecvTrials then RecvOutcome(total, RecvTrials + 1, false, k')
    else
      var trial' := if count == 0 then trial + 1 else trial;
      if total + count == expected then RecvOutcome(total + count, trial', true, k')
      else RecvLoop(expected, replies, k', count, total + count, trial')
  }

  /** The loop of `RecvInteger` / `RecvString`, written as the source writes it. */
  method ReceiveFixed(expected: int, replies: seq<int>) returns (r: RecvOutcome)
    ensures r == RecvLoop(expected, replies, 0, 0, 0, 0)
    ensures r.complete <==> r.total == expected
    ensures !r.complete ==> r.zeroReads == RecvTrials + 1
    ensures expected > 0 && ScriptFits(expected, replies) ==>
      (r.complete <==> exists j :: 0 < j <= |replies| && SumTo(replies, j) == expected && ZerosTo(replies, j) <= RecvTrials)
  {
    if expected > 0 && ScriptFits(expected, replies) {
      RecvLoopCompletesIff(expected, replies);
    }
    var count, total, trial, k := 0, 0, 0, 0;
    while true
      invariant k <= |replies| && trial <= RecvTrials
      invariant total == expected ==> trial < RecvTrials
      invariant RecvLoop(expected, replies, k, count, total, trial) == RecvLoop(expected, replies, 0, 0, 0, 0)
      decreases |replies| - k, RecvTrials - trial
    {
      var read := ReadCount(expected - count, replies, k);
      count, k := read.0, read.1;
      if count == 0 {
        if trial == RecvTrials {
          return RecvOutcome(total, RecvTrials + 1, false, k);
        }
        trial := trial + 1;
      }
      total := total + count;
      if total == expected {
        return RecvOutcome(total, trial, true, k);
      }
    }
  }

  /* ---------------- the stall counter against the script ---------------- */

  /** The bytes the first `j` script entries offer. */
  function SumTo(replies: seq<int>, j: nat): (s: int)
    requires j <= |replies|
  {
    if j == 0 then 0 else SumTo(replies, j - 1) + replies[j - 1]
  }

  /** How many of the first `j` script entries are empty reads. */
  function ZerosTo(replies: seq<int>, j: nat): (z: nat)
    requires j <= |replies|
  {
    if j == 0 then 0 else ZerosTo(replies, j - 1) + (if replies[j - 1] == 0 then 1 else 0)
  }

  lemma {:induction false} ZerosMonotone(replies: seq<int>, a: nat, b: nat)
    requires a <= b <= |replies|
    ensures ZerosTo(replies, a) <= ZerosTo(replies, b)
    decreases b - a
  {
    if a < b {
      ZerosMonotone(replies, a, b - 1);
    }
  }

  /** A script each of whose calls delivers exactly its reply: the reply is
      not an error, and the request the loop makes for it (the expected size
      minus the previous reply) is positive and at least the reply. */
  predicate ScriptFits(expected: int, replies: seq<int>)
  {
    forall j :: 0 <= j < |replies| ==>
      0 <= replies[j] && LastReply(replies, j) < expected && replies[j] <= expected - LastReply(replies, j)
  }

  /** Scripts that fit include an int arriving whole, an int in two pieces,
      and the overshooting 1, 2, 2 socket. */
  lemma FittingScripts()
    ensures ScriptFits(4, [4]) && ScriptFits(4, [3, 1]) && ScriptFits(4, [1, 2, 2])
    ensures !RecvLoop(4, [1, 2, 2], 0, 0, 0, 0).complete
  {
    RecvLoopCompletesIff(4, [1, 2, 2]);
    assert SumTo([1, 2, 2], 1) == 1 && SumTo([1, 2, 2], 2) == 3 && SumTo([1, 2, 2], 3) == 5;
  }

  /** The count the previous call returned, when the first `k` entries were
      all consumed as offered. */
  function LastReply(replies: seq<int>, k: nat): (c: int)
    requires k <= |replies|
  {
    if k == 0 then 0 else replies[k - 1]
  }

  /** Past the end of the script every call reads nothing, so a loop that has
      not hit its size yet stalls out. */
  lemma {:induction false} RecvLoopPastEnd(expected: int, replies: seq<int>, last: int, total: int, trial: nat)
    requires trial <= RecvTrials && total != expected
    ensures !RecvLoop(expected, replies, |replies|, last, total, trial).complete
    decreases RecvTrials - trial
  {
    if trial < RecvTrials {
      RecvLoopPastEnd(expected, replies, 0, total, trial + 1);
    }
  }

  /** One turn of the loop on a fitting script: the call delivers exactly the
      next reply, and the loop stalls out, completes or goes on with the
      counts of the longer prefix. */
  lemma RecvLoopStep(expected: int, replies: seq<int>, k: nat)
    requires expected > 0 && ScriptFits(expected, replies)
    requires k < |replies| && ZerosTo(replies, k) <= RecvTrials && SumTo(replies, k) != expected
    ensures replies[k] == 0 && ZerosTo(replies, k) == RecvTrials ==>
      !RecvLoop(expected, replies, k, LastReply(replies, k), SumTo(replies, k), ZerosTo(replies, k)).complete
    ensures !(replies[k] == 0 && ZerosTo(replies, k) == RecvTrials) ==>
      ZerosTo(replies, k + 1) <= RecvTrials
      && RecvLoop(expected, replies, k, LastReply(replies, k), SumTo(replies, k), ZerosTo(replies, k)).complete
         == (SumTo(replies, k + 1) == expected
             || RecvLoop(expected, replies, k + 1, LastReply(replies, k + 1), SumTo(replies, k + 1), ZerosTo(replies, k + 1)).complete)
  {
    assert ReadCount(expected - LastReply(replies, k), replies, k) == (replies[k], k + 1);
  }

  /** From any point of a fitting script, the loop completes exactly when a
      later prefix of the script sums to the expected size with at most
      three empty reads in the WHOLE prefix, earlier ones included. */
  lemma {:induction false} RecvLoopFromScript(expected: int, replies: seq<int>, k: nat)
    requires expected > 0 && ScriptFits(expected, replies)
    requires k <= |replies| && ZerosTo(replies, k) <= RecvTrials && SumTo(replies, k) != expected
    ensures RecvLoop(expected, replies, k, LastReply(replies, k), SumTo(replies, k), ZerosTo(replies, k)).complete
            <==> exists j :: k < j <= |replies| && SumTo(replies, j) == expected && ZerosTo(replies, j) <= RecvTrials
    decreases |replies| - k
  {
    if k == |replies| {
      RecvLoopPastEnd(expected, replies, LastReply(replies, k), SumTo(replies, k), ZerosTo(replies, k));
    } else {
      RecvLoopStep(expected, replies, k);
      if replies[k] == 0 && ZerosTo(replies, k) == RecvTrials {
        forall j | k < j <= |replies|
          ensures ZerosTo(replies, j) > RecvTrials
        {
          ZerosMonotone(replies, k + 1, j);
        }
      } else if SumTo(replies, k + 1) == expected {
        assert k < k + 1 <= |replies| && SumTo(replies, k + 1) == expected && ZerosTo(replies, k + 1) <= RecvTrials;
      } else {
        RecvLoopFromScript(expected, replies, k + 1);
        if exists j :: k < j <= |replies| && SumTo(replies, j) == expected && ZerosTo(replies, j) <= RecvTrials {
          var j :| k < j <= |replies| && SumTo(replies, j) == expected && ZerosTo(replies, j) <= RecvTrials;
          assert k + 1 < j;
        }
      }
    }
  }

  /** From a fresh start on a fitting script, the loop completes exactly when
      some prefix of the script sums to the expected size and holds at most
      three empty reads: progress never resets the stall counter. */
  lemma RecvLoopCompletesIff(expected: int, replies: seq<int>)
    requires expected > 0 && ScriptFits(expected, replies)
    ensures RecvLoop(expected, replies, 0, 0, 0, 0).complete <==>
      exists j :: 0 < j <= |replies| && SumTo(replies, j) == expected && ZerosTo(replies, j) <= RecvTrials
  {
    RecvLoopFromScript(expected, replies, 0);
  }

  /** Four stalls separated by progress add up: asked for 4 bytes, a socket
      alternating single bytes with empty reads gives up at its fourth empty
      read, one byte short, with that byte still on offer. */
  lemma RecvLoopStallsAccumulate()
    ensures RecvLoop(4, [1, 0, 1, 0, 1, 0, 0, 1], 0, 0, 0, 0) == RecvOutcome(3, 4, false, 7)
  {
    var s := [1, 0, 1, 0, 1, 0, 0, 1];
    assert ReadCount(4, s, 0) == (1, 1);
    assert ReadCount(3, s, 1) == (0, 2);
    assert ReadCount(4, s, 2) == (1, 3);
    assert ReadCount(3, s, 3) == (0, 4);
    assert ReadCount(4, s, 4) == (1, 5);
    assert ReadCount(3, s, 5) == (0, 6);
    assert ReadCount(4, s, 6) == (0, 7);
  }

  /** `RecvInteger`'s result: the byte total divided by `sizeof(int)`, with
      the total first converted to the unsigned 32-bit `size_t` of the
      Win32 target. */
  function IntsReceived(total: int): (n: int)
    ensures 0 <= n < 0x4000_0000
    ensures total >= 0 && total < Two32 ==> n * 4 <= total < n * 4 + 4
  {
    (total % Two32) / 4
  }

  /** `RecvInteger(val, n)`: the loop over `4 * n` bytes; the result is the
      number of whole ints counted. */
  method RecvInteger(n: int, replies: seq<int>) returns (ints: int, r: RecvOutcome)
    ensures r == RecvLoop(4 * n, replies, 0, 0, 0, 0)
    ensures r.complete && 0 <= n < 0x4000_0000 ==> ints == n
    ensures ints == IntsReceived(r.total)
  {
    r := ReceiveFixed(4 * n, replies);
    ints := IntsReceived(r.total);
  }

  /** `RecvString(str, n)`: the loop over `n` bytes; the result is the byte total. */
  method RecvString(n: int, replies: seq<int>) returns (bytes: int, r: RecvOutcome)
    ensures r == RecvLoop(n, replies, 0, 0, 0, 0)
    ensures bytes == r.total && (r.complete <==> bytes == n)
  {
    r := ReceiveFixed(n, replies);
    bytes := r.total;
  }

  /** As written the loop can overshoot: asked for 4 bytes, a socket
      delivering 1, 2 and then 2 bytes is read to a total of 5, the exact
      test never fires, and the loop stalls out incomplete — while
      `RecvInteger` still reports one int received. */
  lemma RecvLoopOvershoots()
    ensures var r := RecvLoop(4, [1, 2, 2], 0, 0, 0, 0);
            r.total == 5 && !r.complete && IntsReceived(r.total) == 1
  {
    assert ReadCount(4, [1, 2, 2], 0) == (1, 1);
    assert ReadCount(3, [1, 2, 2], 1) == (2, 2);
    assert ReadCount(2, [1, 2, 2], 2) == (2, 3);
    assert ReadCount(2, [1, 2, 2], 3) == (0, 3);
    var r4 := RecvLoop(4, [1, 2, 2], 3, 2, 5, 3);
    assert r4 == RecvOutcome(5, 4, false, 3);
    assert RecvLoop(4, [1, 2, 2], 3, 2, 5, 0) == RecvLoop(4, [1, 2, 2], 3, 0, 5, 1);
  }

  /** The loop as intended: each request is what is still missing, so the
      running total never passes the expected size. */
  function RecvLoopCorrected(expected: int, replies: seq<int>, k: nat, total: int, trial: nat)
    : (r: RecvOutcome)
    requires k <= |replies| && trial <= RecvTrials
    requires 0 <= total <= expected
    requires total == expected ==> trial < RecvTrials
    requires forall j :: 0 <= j < |replies| ==> replies[j] >= 0
    ensures r.complete <==> r.total == expected
    ensures total <= r.total <= expected
    ensures !r.complete ==> r.zeroReads == RecvTrials + 1
    ensures k <= r.consumed <= |replies|
    decreases |replies| - k, RecvTrials - trial
  {
    var (count, k') := ReadCount(expected - total, replies, k);
    if count == 0 && trial == RecvTrials then RecvOutcome(total, RecvTrials + 1, false, k')
    else
      var trial' := if count == 0 then trial + 1 else trial;
      if total + count == expected then RecvOutcome(total + count, trial', true, k')
      else RecvLoopCorrected(expected, replies, k', total + count, trial')
  }

  /** The corrected loop completes whenever every read delivers something and
      the socket offers at least the missing bytes in all. */
  lemma {:induction false} RecvCorrectedCompletes(expected: int, replies: seq<int>, k: nat, total: int, trial: nat)
    requires k <= |replies| && trial <= RecvTrials
    requires 0 <= total <= expected
    requires total == expected ==> trial < RecvTrials
    requires forall j :: 0 <= j < |replies| ==> replies[j] > 0
    requires total + SumFrom(replies, k) >= expected
    ensures RecvLoopCorrected(expected, replies, k, total, trial).complete
    decreases |replies| - k, RecvTrials - trial
  {
    var (count, k') := ReadCount(expected - total, replies, k);
    if total < expected {
      assert k < |replies|;
      assert count > 0 && k' == k + 1;
      if total + count != expected {
        assert count == replies[k];
        RecvCorrectedCompletes(expected, replies, k', total + count, trial);
      }
    }
  }

  /** The same socket as in `RecvLoopOvershoots` completes the corrected loop. */
  lemma RecvCorrectedExample()
    ensures RecvLoopCorrected(4, [1, 2, 2], 0, 0, 0).complete
  {
    assert SumFrom([1, 2, 2], 2) == 2;
    assert SumFrom([1, 2, 2], 0) == 5;
    RecvCorrectedCompletes(4, [1, 2, 2], 0, 0, 0);
  }
}
