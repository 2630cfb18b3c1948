/**
 * The copy executor shared by the scripts: a server-side copy is started and
 * its status is polled while it is `pending` or `in_progress`. The object
 * store is not modelled; what it answers is given as a finite sequence of
 * replies: element 0 is what starting the copy returned and element k > 0
 * what the k-th status fetch returned, either a status string or an
 * exception.
 */
module Copy {

  datatype Reply = Status(status: string) | Raised

  /** One copy the scripts ask the store to make, from a source path to a
      destination path. */
  datatype Request = Request(src: string, dest: string)

  /** A reply that keeps the poll loop waiting. */
  predicate Waiting(r: Reply)
  {
    r.Status? && (r.status == "pending" || r.status == "in_progress")
  }

  /** The success test of the status report: the status is exactly
      `"success"`. */
  predicate IsSuccess(r: Reply)
  {
    r == Status("success")
  }

  /** The store eventually answers something other than a waiting status.
      Nothing in the scripts bounds the loop, so without this the copy never
      finishes. */
  predicate Settles(replies: seq<Reply>)
  {
    exists k :: 0 <= k < |replies| && !Waiting(replies[k])
  }

  /** The position of the first reply that ends the wait. */
  function SettleIndex(replies: seq<Reply>): (k: nat)
    requires Settles(replies)
    ensures k < |replies| && !Waiting(replies[k])
    ensures forall j :: 0 <= j < k ==> Waiting(replies[j])
    decreases |replies|
  {
    if !Waiting(replies[0]) then 0
    else
      assert Settles(replies[1..]) by {
        var k :| 0 <= k < |replies| && !Waiting(replies[k]);
        assert replies[1..][k - 1] == replies[k];
      }
      1 + SettleIndex(replies[1..])
  }

  /** The poll loop: wait while the status is `pending` or `in_progress`,
      fetching the next reply after each wait. It stops at the first other
      reply, a final status or an exception; the number of waits is the
      number of waiting replies before it. */
  method Poll(replies: seq<Reply>) returns (waits: nat, last: Reply)
    requires Settles(replies)
    ensures waits < |replies| && last == replies[waits] && !Waiting(last)
    ensures forall j :: 0 <= j < waits ==> Waiting(replies[j])
    ensures waits == SettleIndex(replies)
  {
    waits := 0;
    last := replies[0];
    while Waiting(last)
      invariant waits <= SettleIndex(replies)
      invariant last == replies[waits]
      invariant forall j :: 0 <= j < waits ==> Waiting(replies[j])
      decreases SettleIndex(replies) - waits
    {
      waits := waits + 1;
      last := replies[waits];
    }
  }

  /** What one call of a script's copy routine leaves behind: the source URL
      it used, how often it waited, the reply that ended it, and the results
      of the existence probes it made afterwards (in order). */
  datatype CopyLog = CopyLog(url: string, waits: nat, final: Reply, probes: seq<bool>)
}
