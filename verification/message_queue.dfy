/** The bounded wait that turns the driver's asynchronous completion-message
    queue into a blocking call (the loop after homing in `Kinesis_API::Initialize`
    and after the move command in `Kinesis_API::SetPosition`).

    The hardware is replaced by a finite trace of observations, one per poll of
    the queue: either the queue was empty, or it held a message and the next
    message was dequeued. The real loop runs until it completes or times out;
    when the trace ends first the model answers `Undecided`, meaning the call
    would still be blocked.
 */
module MessageQueue {
  import opened Codes

  type Word = x: int | 0 <= x < 0x1_0000
  type DWord = x: int | 0 <= x < 0x1_0000_0000

  /** A message as `SBC_GetNextMessage` returns it. */
  datatype Message = Message(messageType: Word, messageId: Word, messageData: DWord)

  /** One poll of the queue: `Empty` when its size was zero, otherwise the
      message that was dequeued. */
  datatype Poll = Empty | Next(message: Message)

  /** Either field alone marks the end of the commanded motion. */
  predicate IsCompletion(m: Message) {
    m.messageType == CompletionType || m.messageId == CompletionId
  }

  predicate Completing(p: Poll) {
    p.Next? && IsCompletion(p.message)
  }

  predicate NoCompletion(polls: seq<Poll>) {
    forall i :: 0 <= i < |polls| ==> !Completing(polls[i])
  }

  /** How often the queue was found empty. */
  function CountEmpty(polls: seq<Poll>): nat
    decreases |polls|
  {
    if |polls| == 0 then 0
    else CountEmpty(polls[..|polls| - 1]) + (if polls[|polls| - 1].Empty? then 1 else 0)
  }

  /** How many 100 ms sleeps a wait with this timeout may take: the counter
      values `c` that pass the check `c * 100 > timeout`. */
  function SleepBudget(timeout: int): nat {
    if timeout < 0 then 0 else timeout / PollStepMs + 1
  }

  /** How a wait ended: `consumed` observations were used and `sleeps` sleeps
      of 100 ms were taken. */
  datatype Wait =
    | Completed(consumed: nat, sleeps: nat)
    | TimedOut(consumed: nat, sleeps: nat)
    | Undecided(sleeps: nat)

  /** The wait's outcome stated without running the loop: it completes at the
      first completing message if the queue was found empty at most
      `SleepBudget` times before it; it times out at the empty poll that
      exceeds the budget if that comes before any completing message; otherwise
      the trace does not decide. */
  ghost predicate Explains(polls: seq<Poll>, timeout: int, w: Wait) {
    match w
    case Completed(n, s) =>
      && 1 <= n <= |polls|
      && Completing(polls[n - 1])
      && NoCompletion(polls[..n - 1])
      && s == CountEmpty(polls[..n - 1])
      && s <= SleepBudget(timeout)
    case TimedOut(n, s) =>
      && 1 <= n <= |polls|
      && polls[n - 1] == Empty
      && NoCompletion(polls[..n])
      && s == SleepBudget(timeout)
      && CountEmpty(polls[..n]) == s + 1
    case Undecided(s) =>
      && NoCompletion(polls)
      && s == CountEmpty(polls)
      && s <= SleepBudget(timeout)
  }

  lemma CountEmptySnoc(polls: seq<Poll>, i: nat)
    requires i < |polls|
    ensures CountEmpty(polls[..i + 1]) == CountEmpty(polls[..i]) + (if polls[i].Empty? then 1 else 0)
  {
    assert polls[..i + 1][..i] == polls[..i];
  }

  lemma {:induction false} CountEmptyMonotone(polls: seq<Poll>, i: nat, j: nat)
    requires i <= j <= |polls|
    ensures CountEmpty(polls[..i]) <= CountEmpty(polls[..j])
    decreases j - i
  {
    if i < j {
      CountEmptyMonotone(polls, i, j - 1);
      CountEmptySnoc(polls, j - 1);
    }
  }

  /** The counter passes the timeout check exactly while it is below the budget. */
  lemma WithinBudget(counter: nat, timeout: int)
    ensures counter * PollStepMs <= timeout <==> counter < SleepBudget(timeout)
  {
    if timeout >= 0 {
      var q := timeout / PollStepMs;
      assert timeout == q * PollStepMs + timeout % PollStepMs;
      if counter <= q {
        assert counter * PollStepMs <= q * PollStepMs;
      } else {
        assert counter * PollStepMs >= (q + 1) * PollStepMs;
      }
    }
  }

  /** The loop from observation `i` on, with `counter` empty polls seen so far. */
  function WaitFrom(polls: seq<Poll>, timeout: int, i: nat, counter: nat): (w: Wait)
    requires i <= |polls|
    requires NoCompletion(polls[..i])
    requires counter == CountEmpty(polls[..i]) && counter <= SleepBudget(timeout)
    ensures Explains(polls, timeout, w)
    decreases |polls| - i
  {
    if i == |polls| then
      assert polls[..i] == polls;
      Undecided(counter)
    else
      CountEmptySnoc(polls, i);
      assert polls[..i + 1] == polls[..i] + [polls[i]];
      match polls[i]
      case Empty =>
        WithinBudget(counter, timeout);
        if counter * PollStepMs > timeout then TimedOut(i + 1, counter)
        else WaitFrom(polls, timeout, i + 1, counter + 1)
      case Next(m) =>
        if IsCompletion(m) then Completed(i + 1, counter)
        else WaitFrom(polls, timeout, i + 1, counter)
  }

  /** The wait loop: the counter starts at zero and is shared by all messages. */
  function WaitForCompletion(polls: seq<Poll>, timeout: int): (w: Wait)
    ensures Explains(polls, timeout, w)
  {
    assert polls[..0] == [];
    WaitFrom(polls, timeout, 0, 0)
  }

  /** The description in `Explains` admits only one outcome, so it is a
      complete specification of the loop. */
  lemma ExplainsUnique(polls: seq<Poll>, timeout: int, w1: Wait, w2: Wait)
    requires Explains(polls, timeout, w1) && Explains(polls, timeout, w2)
    ensures w1 == w2
  {
    if w1.TimedOut? && w2.Undecided? {
      assert polls[..|polls|] == polls;
      CountEmptyMonotone(polls, w1.consumed, |polls|);
    } else if w2.TimedOut? && w1.Undecided? {
      assert polls[..|polls|] == polls;
      CountEmptyMonotone(polls, w2.consumed, |polls|);
    } else if w1.TimedOut? && w2.TimedOut? {
      var n1, n2 := w1.consumed, w2.consumed;
      if n1 < n2 {
        CountEmptyMonotone(polls, n1, n2 - 1);
        CountEmptySnoc(polls, n2 - 1);
      } else if n2 < n1 {
        CountEmptyMonotone(polls, n2, n1 - 1);
        CountEmptySnoc(polls, n1 - 1);
      }
    } else if w1.Completed? && w2.TimedOut? && w2.consumed < w1.consumed {
      CountEmptyMonotone(polls, w2.consumed, w1.consumed - 1);
    } else if w2.Completed? && w1.TimedOut? && w1.consumed < w2.consumed {
      CountEmptyMonotone(polls, w1.consumed, w2.consumed - 1);
    }
  }

  /** The wait completes exactly when some completing message is preceded by
      no other completing message and by at most `SleepBudget` empty polls. */
  lemma {:induction false} CompletesIff(polls: seq<Poll>, timeout: int)
    ensures WaitForCompletion(polls, timeout).Completed? <==>
      exists k :: 0 <= k < |polls| && Completing(polls[k]) && NoCompletion(polls[..k])
                  && CountEmpty(polls[..k]) <= SleepBudget(timeout)
  {
    var w := WaitForCompletion(polls, timeout);
    if k :| 0 <= k < |polls| && Completing(polls[k]) && NoCompletion(polls[..k])
            && CountEmpty(polls[..k]) <= SleepBudget(timeout) {
      var c := Completed(k + 1, CountEmpty(polls[..k]));
      assert Explains(polls, timeout, c);
      ExplainsUnique(polls, timeout, w, c);
    }
  }

  /** The wait times out exactly when the queue is found empty for the
      `SleepBudget + 1`-th time before any completing message is dequeued. */
  lemma {:induction false} TimesOutIff(polls: seq<Poll>, timeout: int)
    ensures WaitForCompletion(polls, timeout).TimedOut? <==>
      exists k :: 0 <= k < |polls| && polls[k] == Empty && NoCompletion(polls[..k])
                  && CountEmpty(polls[..k]) == SleepBudget(timeout)
  {
    var w := WaitForCompletion(polls, timeout);
    if k :| 0 <= k < |polls| && polls[k] == Empty && NoCompletion(polls[..k])
            && CountEmpty(polls[..k]) == SleepBudget(timeout) {
      var t := TimedOut(k + 1, SleepBudget(timeout));
      CountEmptySnoc(polls, k);
      assert polls[..k + 1] == polls[..k] + [Empty];
      assert Explains(polls, timeout, t);
      ExplainsUnique(polls, timeout, w, t);
    }
    if w.TimedOut? {
      var k := w.consumed - 1;
      CountEmptySnoc(polls, k);
      assert polls[..k + 1] == polls[..k] + [Empty];
      assert NoCompletion(polls[..k]);
    }
  }

  /** A timeout is never reported before the timeout has elapsed, and no wait
      sleeps longer than the timeout plus one polling step. */
  lemma SleepTimeBounds(polls: seq<Poll>, timeout: int)
    requires timeout >= 0
    ensures WaitForCompletion(polls, timeout).sleeps * PollStepMs <= timeout + PollStepMs
    ensures WaitForCompletion(polls, timeout).TimedOut? ==>
      WaitForCompletion(polls, timeout).sleeps == timeout / PollStepMs + 1
      && WaitForCompletion(polls, timeout).sleeps * PollStepMs > timeout
  {
    var w := WaitForCompletion(polls, timeout);
    var q := timeout / PollStepMs;
    assert timeout == q * PollStepMs + timeout % PollStepMs;
    assert w.sleeps <= q + 1;
    assert w.sleeps * PollStepMs <= (q + 1) * PollStepMs;
  }

  /** Messages that do not complete never advance the counter: a trace of them
      alone, however long, neither completes nor times out. */
  lemma {:induction false} NonCompletingMessagesNeverTimeOut(polls: seq<Poll>, timeout: int)
    requires forall i :: 0 <= i < |polls| ==> polls[i].Next? && !IsCompletion(polls[i].message)
    ensures WaitForCompletion(polls, timeout) == Undecided(0)
  {
    var w := WaitForCompletion(polls, timeout);
    assert CountEmpty(polls) == 0 by {
      NoEmptyCountsZero(polls);
    }
    ExplainsUnique(polls, timeout, w, Undecided(0));
  }

  lemma {:induction false} NoEmptyCountsZero(polls: seq<Poll>)
    requires forall i :: 0 <= i < |polls| ==> polls[i].Next?
    ensures CountEmpty(polls) == 0
    decreases |polls|
  {
    if |polls| > 0 {
      NoEmptyCountsZero(polls[..|polls| - 1]);
    }
  }

  lemma {:induction false} AllEmptyCounts(polls: seq<Poll>)
    requires forall i :: 0 <= i < |polls| ==> polls[i] == Empty
    ensures CountEmpty(polls) == |polls|
    decreases |polls|
  {
    if |polls| > 0 {
      AllEmptyCounts(polls[..|polls| - 1]);
    }
  }

  /** An empty queue times out after exactly `SleepBudget` sleeps, on the poll
      after the last sleep. */
  lemma QueueStaysEmpty(polls: seq<Poll>, timeout: int)
    requires forall i :: 0 <= i < |polls| ==> polls[i] == Empty
    requires |polls| > SleepBudget(timeout)
    ensures WaitForCompletion(polls, timeout) == TimedOut(SleepBudget(timeout) + 1, SleepBudget(timeout))
  {
    var b := SleepBudget(timeout);
    var t := TimedOut(b + 1, b);
    AllEmptyCounts(polls[..b + 1]);
    assert Explains(polls, timeout, t);
    ExplainsUnique(polls, timeout, WaitForCompletion(polls, timeout), t);
  }

  /** The loop never looks past the observation that decides it: observations
      after a completion or a timeout do not change the outcome. */
  lemma DecidedIgnoresLaterPolls(polls: seq<Poll>, later: seq<Poll>, timeout: int)
    requires !WaitForCompletion(polls, timeout).Undecided?
    ensures WaitForCompletion(polls + later, timeout) == WaitForCompletion(polls, timeout)
  {
    var w := WaitForCompletion(polls, timeout);
    var all := polls + later;
    assert all[..w.consumed] == polls[..w.consumed];
    assert all[..w.consumed - 1] == polls[..w.consumed - 1];
    assert Explains(all, timeout, w);
    ExplainsUnique(all, timeout, WaitForCompletion(all, timeout), w);
  }
}
