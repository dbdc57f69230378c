/** The fetch layer of research.py: the `retry_on_server_disconnect` decorator
    and the progress bookkeeping of `load_doc_from_url`. A request is not
    modelled; each attempt's outcome comes from an oracle `call`, where `call(i)`
    is what the `i`-th attempt (counting from 0) raises or returns. */
module Fetch {

  /** The exceptions the crawl distinguishes. */
  datatype Error =
    | ClientError        // aiohttp.ClientError and its subclasses
    | Timeout            // asyncio.TimeoutError
    | IndexError         // `[0]` on an empty selection
    | KeyError           // a missing attribute (`attrs["id"]`)
    | AttributeError     // an attribute of None (`.group`, `.text`, `.select`)
    | ValueError         // `int()` on text that is not an integer
    | OtherError         // any other exception

  /** The decorator catches exactly these two kinds. */
  predicate Retryable(e: Error) {
    e.ClientError? || e.Timeout?
  }

  datatype Attempt<T> = Returned(value: T) | Raised(error: Error)

  predicate RetryableFailure<T>(a: Attempt<T>) {
    a.Raised? && Retryable(a.error)
  }

  /** How a call of the decorated function ends: with a value, with an exception,
      or with `None` when `range(n_tries)` is empty. */
  datatype Outcome<T> = Value(value: T) | Failed(error: Error) | NoneReturned

  /** An outcome together with the number of attempts made. */
  datatype Run<T> = Run(outcome: Outcome<T>, attempts: nat)

  /** The loop from iteration `i` on. */
  function RetryFrom<T>(i: nat, nTries: int, call: nat -> Attempt<T>): Run<T>
    requires i < nTries
    decreases nTries - i
  {
    match call(i)
    case Returned(v) => Run(Value(v), i + 1)
    case Raised(e) =>
      if !Retryable(e) || i == nTries - 1 then Run(Failed(e), i + 1)
      else RetryFrom(i + 1, nTries, call)
  }

  /** What `retry_on_server_disconnect(n_tries)(f)` does when its `i`-th call of `f`
      behaves as `call(i)`. */
  function Retry<T>(nTries: int, call: nat -> Attempt<T>): (r: Run<T>)
    ensures r.outcome == NoneReturned <==> nTries <= 0
    ensures r.attempts <= if nTries > 0 then nTries else 0
  {
    if nTries <= 0 then Run(NoneReturned, 0)
    else
      RetryFromShape(0, nTries, call);
      RetryFrom(0, nTries, call)
  }

  /** Every run from iteration `i` on: all attempts but the last raised a
      retryable error, and the last one decides the outcome. */
  lemma {:induction false} RetryFromShape<T>(i: nat, nTries: int, call: nat -> Attempt<T>)
    requires i < nTries
    ensures var r := RetryFrom(i, nTries, call);
      && i < r.attempts <= nTries
      && (forall j :: i <= j < r.attempts - 1 ==> RetryableFailure(call(j)))
      && (call(r.attempts - 1).Returned? ==> r.outcome == Value(call(r.attempts - 1).value))
      && (call(r.attempts - 1).Raised? ==> r.outcome == Failed(call(r.attempts - 1).error))
      && (RetryableFailure(call(r.attempts - 1)) ==> r.attempts == nTries)
    decreases nTries - i
  {
    if call(i).Raised? && Retryable(call(i).error) && i != nTries - 1 {
      RetryFromShape(i + 1, nTries, call);
    }
  }

  /** At most `n_tries` attempts; all but the last raised a retryable error; the
      outcome is the last attempt's value or exception; a retryable exception ends
      the run only on the last allowed attempt; and with `n_tries <= 0` the wrapper
      returns None without calling `f`. */
  lemma RetryShape<T>(nTries: int, call: nat -> Attempt<T>)
    ensures var r := Retry(nTries, call);
      && (r.outcome == NoneReturned <==> nTries <= 0)
      && (nTries <= 0 ==> r.attempts == 0)
      && (nTries > 0 ==>
            && 0 < r.attempts <= nTries
            && (forall j :: 0 <= j < r.attempts - 1 ==> RetryableFailure(call(j)))
            && (call(r.attempts - 1).Returned? ==> r.outcome == Value(call(r.attempts - 1).value))
            && (call(r.attempts - 1).Raised? ==> r.outcome == Failed(call(r.attempts - 1).error))
            && (RetryableFailure(call(r.attempts - 1)) ==> r.attempts == nTries))
  {
    if nTries > 0 {
      RetryFromShape(0, nTries, call);
    }
  }

  /** Conversely, the first attempt that returns, after only retryable failures,
      gives the result. */
  lemma {:induction false} RetryFirstSuccess<T>(nTries: int, call: nat -> Attempt<T>, k: nat, i: nat)
    requires i <= k < nTries
    requires forall j :: i <= j < k ==> RetryableFailure(call(j))
    requires call(k).Returned?
    ensures RetryFrom(i, nTries, call) == Run(Value(call(k).value), k + 1)
    decreases k - i
  {
    if i < k {
      RetryFirstSuccess(nTries, call, k, i + 1);
    }
  }

  /** An error the decorator does not catch propagates at its first occurrence. */
  lemma {:induction false} RetryFatal<T>(nTries: int, call: nat -> Attempt<T>, k: nat, i: nat)
    requires i <= k < nTries
    requires forall j :: i <= j < k ==> RetryableFailure(call(j))
    requires call(k).Raised? && !Retryable(call(k).error)
    ensures RetryFrom(i, nTries, call) == Run(Failed(call(k).error), k + 1)
    decreases k - i
  {
    if i < k {
      RetryFatal(nTries, call, k, i + 1);
    }
  }

  /** After `n_tries` retryable failures the last one is re-raised. */
  lemma {:induction false} RetryExhausted<T>(nTries: int, call: nat -> Attempt<T>, i: nat)
    requires i < nTries
    requires forall j :: i <= j < nTries ==> RetryableFailure(call(j))
    ensures var last := call(nTries - 1);
      last.Raised? && RetryFrom(i, nTries, call) == Run(Failed(last.error), nTries)
    decreases nTries - i
  {
    if i < nTries - 1 {
      RetryExhausted(nTries, call, i + 1);
    }
  }

  /** The decorator's `for` loop with its early `return` and `raise`. */
  method RetryOnServerDisconnect<T>(nTries: int, call: nat -> Attempt<T>) returns (outcome: Outcome<T>, attempts: nat)
    ensures Run(outcome, attempts) == Retry(nTries, call)
  {
    var i := 0;
    while i < nTries
      invariant i == 0 || i < nTries
      invariant i < nTries ==> Retry(nTries, call) == RetryFrom(i, nTries, call)
      decreases nTries - i
    {
      var a := call(i);
      match a
      case Returned(v) =>
        return Value(v), i + 1;
      case Raised(e) =>
        if !Retryable(e) || i == nTries - 1 {
          return Failed(e), i + 1;
        }
      i := i + 1;
    }
    return NoneReturned, 0;
  }

  /** The progress bar's two counters (`REQUESTS_PBAR.total` and `.n`). */
  class Progress {
    var total: int
    var completed: int

    ghost predicate Valid()
      reads this
    {
      0 <= completed <= total
    }

    /** `tqdm(total=0)`. */
    constructor ()
      ensures Valid() && total == 0 && completed == 0
    {
      total := 0;
      completed := 0;
    }
  }

  /** One call of the undecorated `load_doc_from_url`: the expected total grows
      before the request and the completed count only when a document comes back.
      `bar` is null while no progress bar is installed. */
  method LoadDocAttempt<D>(bar: Progress?, attempt: Attempt<D>) returns (r: Attempt<D>)
    modifies bar
    ensures r == attempt
    ensures bar != null ==> bar.total == old(bar.total) + 1
    ensures bar != null ==> bar.completed == old(bar.completed) + (if attempt.Returned? then 1 else 0)
  {
    if bar != null {
      bar.total := bar.total + 1;
    }
    match attempt
    case Returned(doc) =>
      if bar != null {
        bar.completed := bar.completed + 1;
      }
      return Returned(doc);
    case Raised(e) =>
      return Raised(e);
  }

  /** `@retry_on_server_disconnect(5)` on `load_doc_from_url`. */
  const LoadDocTries := 5

  /** The decorated `load_doc_from_url`: the retry loop around one attempt at a
      time. A fetch that takes `r` attempts raises the expected total by `r`, and
      completes one request exactly when it returns a document, so the completed
      count never overtakes the total. */
  method LoadDocFromUrl<D>(bar: Progress?, call: nat -> Attempt<D>) returns (outcome: Outcome<D>, attempts: nat)
    requires bar != null ==> bar.Valid()
    modifies bar
    ensures Run(outcome, attempts) == Retry(LoadDocTries, call)
    ensures bar != null ==> bar.Valid()
    ensures bar != null ==> bar.total == old(bar.total) + attempts
    ensures bar != null ==> bar.completed == old(bar.completed) + (if outcome.Value? then 1 else 0)
  {
    var i := 0;
    while i < LoadDocTries
      invariant i < LoadDocTries
      invariant Retry(LoadDocTries, call) == RetryFrom(i, LoadDocTries, call)
      invariant bar != null ==> bar.total == old(bar.total) + i && bar.completed == old(bar.completed)
      decreases LoadDocTries - i
    {
      var a := LoadDocAttempt(bar, call(i));
      match a
      case Returned(doc) =>
        return Value(doc), i + 1;
      case Raised(e) =>
        if !Retryable(e) || i == LoadDocTries - 1 {
          return Failed(e), i + 1;
        }
      i := i + 1;
    }
    assert false;
  }
}
