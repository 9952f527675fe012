/**
  The narrow waist (crates/tsavorite/src/store.rs:51-212): the callbacks an
  application gives the store, and what one operation may do to the cell of its
  key. A cell is what the store holds for a key: a payload, or nothing.
 */
module Callbacks {
  import opened Bytes

  /**
    How a call ends. Error is the answer after too many retries. Panicked is no
    answer: a record that the call had to create was larger than a page, and the
    assertion in `try_allocate` (log.rs:261-264) ended the session's thread.
   */
  datatype Status =
    | NotFound | Found | Created | InPlaceUpdated | CopyUpdated | Deleted | Canceled | Error | Panicked

  /** The call did not do what it was asked. */
  predicate GaveUp(status: Status) {
    status == Error || status == Panicked
  }

  /** `Status::is_updated` (store.rs:66-73). */
  predicate IsUpdated(status: Status) {
    status == Created || status == InPlaceUpdated || status == CopyUpdated || status == Deleted
  }

  datatype InPlaceResult<+P, +O> =
    | Updated(payload: P, out: O)
    | NeedCopy
    | Expired
    | Cancel(out: O)
    | Delete(out: O)

  datatype CopyResult<+P, +O> =
    | Copy(payload: P, out: O)
    | CancelCopy
    | DeleteCopy(out: O)

  datatype Functions<!I, !P, !O> = Functions(
    reader: (I, P) -> Option<O>,
    write: I -> P,
    inPlaceWrite: (I, P) -> Option<P>,
    needInitial: I -> bool,
    initial: I -> (P, O),
    inPlace: (I, P) -> InPlaceResult<P, O>,
    copy: (I, P) -> CopyResult<P, O>,
    tombstone: P,
    cap: P -> nat,
    hasExpiration: P -> bool)

  // ---------------------------------------------------------------------
  // One operation on one cell. Which of the alternatives happens depends on
  // the log region the record is in, and on nothing the caller controls.
  // ---------------------------------------------------------------------

  ghost predicate ReadStep<I, P, O>(f: Functions<I, P, O>, input: I, cell: Option<P>,
                                    status: Status, out: Option<O>)
  {
    if cell.Some? && f.reader(input, cell.value).Some? then
      status == Found && out == f.reader(input, cell.value)
    else
      status == NotFound
  }

  ghost predicate UpsertStep<I, P, O>(f: Functions<I, P, O>, input: I, cell: Option<P>,
                                      cell': Option<P>, status: Status)
  {
    || (status == Created && cell' == Some(f.write(input)))
    || (status == InPlaceUpdated && cell.Some? && cell'.Some? && cell' == f.inPlaceWrite(input, cell.value))
  }

  ghost predicate InitialStep<I, P, O>(f: Functions<I, P, O>, input: I,
                                       cell': Option<P>, status: Status, out: Option<O>)
  {
    if f.needInitial(input) then
      status == Created && cell' == Some(f.initial(input).0) && out == Some(f.initial(input).1)
    else
      status == NotFound && cell' == None
  }

  ghost predicate InPlaceStep<I, P, O>(f: Functions<I, P, O>, input: I, payload: P,
                                       cell': Option<P>, status: Status, out: Option<O>)
  {
    match f.inPlace(input, payload)
    case Updated(q, o) => status == InPlaceUpdated && cell' == Some(q) && out == Some(o)
    case Cancel(o) => status == Found && cell' == Some(payload) && out == Some(o)
    case Delete(o) => status == Deleted && cell' == None && out == Some(o)
    case Expired => InitialStep(f, input, cell', status, out)
    case NeedCopy => false
  }

  ghost predicate CopyStep<I, P, O>(f: Functions<I, P, O>, input: I, payload: P,
                                    cell': Option<P>, status: Status, out: Option<O>)
  {
    match f.copy(input, payload)
    case Copy(q, o) => status == CopyUpdated && cell' == Some(q) && out == Some(o)
    case CancelCopy => status == Canceled && cell' == Some(payload)
    case DeleteCopy(o) => status == Deleted && cell' == None && out == Some(o)
  }

  ghost predicate RmwStep<I, P, O>(f: Functions<I, P, O>, input: I, cell: Option<P>,
                                   cell': Option<P>, status: Status, out: Option<O>)
  {
    match cell
    case None => InitialStep(f, input, cell', status, out)
    case Some(p) => InPlaceStep(f, input, p, cell', status, out) || CopyStep(f, input, p, cell', status, out)
  }

  /** An attempt that did not finish may have tombstoned a record that had expired. */
  ghost predicate Unfinished<I, P, O>(f: Functions<I, P, O>, input: I, cell: Option<P>, cell': Option<P>) {
    cell' == cell || (cell.Some? && f.inPlace(input, cell.value).Expired? && cell' == None)
  }

  /** What the record says that one RMW may have to append: a payload, or None for a tombstone. */
  ghost predicate RmwMakes<I, P, O>(f: Functions<I, P, O>, input: I, cell: Option<P>, made: Option<P>) {
    match cell
    case None => f.needInitial(input) && made == Some(f.initial(input).0)
    case Some(p) =>
      || (f.inPlace(input, p).Expired? && f.needInitial(input) && made == Some(f.initial(input).0))
      || (f.copy(input, p).Copy? && made == Some(f.copy(input, p).payload))
      || (f.copy(input, p).DeleteCopy? && made == None)
  }

  ghost predicate DeleteStep<P>(cell: Option<P>, cell': Option<P>, status: Status) {
    cell' == None && status == if cell.Some? then Deleted else NotFound
  }

  /** A retry after an unfinished attempt completes the same operation. */
  lemma ResumeRmw<I, P, O>(f: Functions<I, P, O>, input: I, cell: Option<P>, mid: Option<P>,
                           cell': Option<P>, status: Status, out: Option<O>)
    requires Unfinished(f, input, cell, mid) && RmwStep(f, input, mid, cell', status, out)
    ensures RmwStep(f, input, cell, cell', status, out) && !GaveUp(status)
  {
  }

  /** What it would append then, the operation could have had to append before. */
  lemma ResumeMakes<I, P, O>(f: Functions<I, P, O>, input: I, cell: Option<P>, mid: Option<P>, made: Option<P>)
    requires Unfinished(f, input, cell, mid) && RmwMakes(f, input, mid, made)
    ensures RmwMakes(f, input, cell, made)
  {
  }
}
