/**
 * The hand-off between the event loop and the worker threads: a bounded
 * FIFO of request pointers guarded by a mutex, with a counting semaphore
 * that tells workers how many requests wait. `Append` and one dequeue
 * step of a worker's loop are each taken as atomic, so the pool is a
 * sequential transition system: the list is a sequence (a null pointer is
 * `None`) and the semaphore a natural number.
 */
module WorkerPool {
  import opened Wrappers

  datatype Pool<T> = Pool(threadNumber: int, maxRequests: int, queue: seq<Option<T>>, signals: nat)

  /** The constructor: non-positive thread counts or queue bounds make it
      throw; otherwise the queue is empty and the semaphore at zero. */
  function Create<T>(threadNumber: int, maxRequests: int): (r: Option<Pool<T>>)
    ensures r.None? <==> threadNumber <= 0 || maxRequests <= 0
    ensures r.Some? ==> Inv(r.value) && r.value.queue == []
    ensures r.Some? ==> r.value.threadNumber == threadNumber && r.value.maxRequests == maxRequests
  {
    if threadNumber <= 0 || maxRequests <= 0 then None
    else Some(Pool(threadNumber, maxRequests, [], 0))
  }

  /** The pool's invariant: the semaphore counts exactly the queued requests,
      and the queue never holds more than `max_requests_`. */
  predicate Inv<T>(p: Pool<T>) {
    && p.threadNumber > 0 && p.maxRequests > 0
    && p.signals == |p.queue|
    && |p.queue| <= p.maxRequests
  }

  /** `Append`, with the bound the queue's capacity intends: a full queue
      refuses the request and nothing changes; otherwise the request goes to
      the back and the semaphore is posted once. */
  function Append<T>(p: Pool<T>, request: Option<T>): (r: (bool, Pool<T>))
    ensures r.0 <==> |p.queue| < p.maxRequests
    ensures !r.0 ==> r.1 == p
    ensures r.0 ==> r.1 == p.(queue := p.queue + [request], signals := p.signals + 1)
    ensures Inv(p) ==> Inv(r.1)
  {
    if |p.queue| >= p.maxRequests then (false, p)
    else (true, p.(queue := p.queue + [request], signals := p.signals + 1))
  }

  /** What one pass of a worker's loop does with the semaphore and the
      queue: wait with nothing posted, wake to an empty queue, pop a null
      pointer, or pop a request and process it. */
  datatype Dispatch<T> = Blocked | Spurious | Discarded | Run(request: T)

  /** One dequeue step of `Run`: wait on the semaphore, then take the front
      of the queue if there is one. */
  function Dequeue<T>(p: Pool<T>): (r: (Dispatch<T>, Pool<T>))
    ensures r.0.Blocked? <==> p.signals == 0
    ensures r.0.Blocked? ==> r.1 == p
    ensures !r.0.Blocked? ==> r.1 == p.(queue := r.1.queue, signals := p.signals - 1)
    ensures r.0.Spurious? <==> p.signals > 0 && |p.queue| == 0
    ensures r.0.Spurious? ==> r.1.queue == p.queue
    ensures r.0.Discarded? || r.0.Run? ==> |p.queue| > 0 && r.1.queue == p.queue[1..]
    ensures r.0.Discarded? ==> p.queue[0].None?
    ensures r.0.Run? ==> p.queue[0] == Some(r.0.request)
    ensures Inv(p) ==> Inv(r.1) && !r.0.Spurious?
  {
    if p.signals == 0 then (Blocked, p)
    else
      var p' := p.(signals := p.signals - 1);
      if |p.queue| == 0 then (Spurious, p')
      else
        var p'' := p'.(queue := p.queue[1..]);
        match p.queue[0]
        case None => (Discarded, p'')
        case Some(x) => (Run(x), p'')
  }

  /** The non-null requests of a queue, front first. */
  function Requests<T>(q: seq<Option<T>>): seq<T> {
    if |q| == 0 then []
    else (if q[0].Some? then [q[0].value] else []) + Requests(q[1..])
  }

  /** The requests the workers process, in order, if they keep dequeuing
      until the semaphore reaches zero and nothing new arrives. */
  function Serve<T>(p: Pool<T>): (r: seq<T>)
    ensures |r| <= p.signals
    ensures |r| <= |p.queue|
    decreases p.signals
  {
    var (d, p') := Dequeue(p);
    match d
    case Blocked => []
    case Run(x) => [x] + Serve(p')
    case _ => Serve(p')
  }

  lemma {:induction false} RequestsAppend<T>(a: seq<Option<T>>, b: seq<Option<T>>)
    ensures Requests(a + b) == Requests(a) + Requests(b)
    decreases |a|
  {
    if |a| > 0 {
      assert (a + b)[1..] == a[1..] + b;
      RequestsAppend(a[1..], b);
    } else {
      assert a + b == b;
    }
  }

  /** FIFO: from a pool that keeps its invariant, the workers process
      exactly the queued non-null requests, in queue order, and skip the
      null ones. */
  lemma {:induction false} ServeIsFifo<T>(p: Pool<T>)
    requires Inv(p)
    ensures Serve(p) == Requests(p.queue)
    decreases p.signals
  {
    if p.signals > 0 {
      var (d, p') := Dequeue(p);
      ServeIsFifo(p');
    }
  }

  /** A request accepted by `Append` is processed after every request
      already waiting. */
  lemma AppendIsServedLast<T>(p: Pool<T>, request: Option<T>)
    requires Inv(p) && Append(p, request).0
    ensures Serve(Append(p, request).1) == Serve(p) + Requests([request])
  {
    ServeIsFifo(p);
    ServeIsFifo(Append(p, request).1);
    RequestsAppend(p.queue, [request]);
  }

  /** A burst of `Append` calls with no worker running in between. */
  function AppendAll<T>(p: Pool<T>, requests: seq<Option<T>>): Pool<T>
    decreases |requests|
  {
    if |requests| == 0 then p
    else AppendAll(Append(p, requests[0]).1, requests[1..])
  }

  /** A burst fills the queue up to its bound and drops the rest: the
      first requests that fit are queued in order behind those already
      waiting, and one semaphore post is made for each. */
  lemma {:induction false} AppendAllFills<T>(p: Pool<T>, requests: seq<Option<T>>)
    requires Inv(p)
    ensures var n := Min(|requests|, p.maxRequests - |p.queue|);
      && AppendAll(p, requests).queue == p.queue + requests[..n]
      && Inv(AppendAll(p, requests))
    decreases |requests|
  {
    if |requests| > 0 {
      var p1 := Append(p, requests[0]).1;
      AppendAllFills(p1, requests[1..]);
      if |p.queue| < p.maxRequests {
        var n := Min(|requests|, p.maxRequests - |p.queue|);
        assert requests[1..][..n - 1] == requests[1..n];
        assert p.queue + requests[..n] == p.queue + [requests[0]] + requests[1..n];
      } else {
        AppendAllFullIsIdle(p, requests);
      }
    }
  }

  /** Once the queue is full, no `Append` changes it. */
  lemma {:induction false} AppendAllFullIsIdle<T>(p: Pool<T>, requests: seq<Option<T>>)
    requires |p.queue| >= p.maxRequests
    ensures AppendAll(p, requests) == p
    decreases |requests|
  {
    if |requests| > 0 {
      AppendAllFullIsIdle(p, requests[1..]);
    }
  }

  // ---------------------------------------------------------------------
  // The bound as written
  // ---------------------------------------------------------------------

  /** `Append` as written refuses only when the size already exceeds
      `max_requests_`, so a queue holding exactly that many still grows. */
  function AppendAsWritten<T>(p: Pool<T>, request: Option<T>): (r: (bool, Pool<T>))
    ensures r.0 <==> |p.queue| <= p.maxRequests
    ensures !r.0 ==> r.1 == p
    ensures r.0 ==> r.1 == p.(queue := p.queue + [request], signals := p.signals + 1)
    ensures InvAsWritten(p) ==> InvAsWritten(r.1)
    ensures Inv(p) && |p.queue| == p.maxRequests ==> r.0 && !Inv(r.1)
  {
    if |p.queue| > p.maxRequests then (false, p)
    else (true, p.(queue := p.queue + [request], signals := p.signals + 1))
  }

  /** The weaker invariant the code as written keeps. */
  predicate InvAsWritten<T>(p: Pool<T>) {
    && p.threadNumber > 0 && p.maxRequests > 0
    && p.signals == |p.queue|
    && |p.queue| <= p.maxRequests + 1
  }

  /** As written, appends and dequeues keep the queue within one more than
      `max_requests_`, and no tighter. */
  lemma AsWrittenBound<T>(p: Pool<T>, request: Option<T>)
    requires InvAsWritten(p)
    ensures InvAsWritten(AppendAsWritten(p, request).1)
    ensures InvAsWritten(Dequeue(p).1)
  {
  }

  /** A full queue accepts one request too many as written, breaking the
      intended invariant; the corrected `Append` refuses it. */
  lemma AsWrittenOverfills<T>(p: Pool<T>, request: Option<T>)
    requires Inv(p) && |p.queue| == p.maxRequests
    ensures AppendAsWritten(p, request).0
    ensures |AppendAsWritten(p, request).1.queue| == p.maxRequests + 1
    ensures !Inv(AppendAsWritten(p, request).1)
    ensures !Append(p, request).0
  {
  }
}
