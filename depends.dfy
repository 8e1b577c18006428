/**
 * The wrapper `FilterDepends` hands to the web layer: its `filter` and
 * `sort` rebuild the original filter from the wrapper's own dump, and only
 * when that succeeds pass the call on to it.
 */
module Depends {
  import opened Results
  import opened Values
  import opened BaseFilter

  /** The two operations the wrapper forwards. */
  datatype Operation = Filter | Sort

  /**
   * `FilterWrapper.filter` and `FilterWrapper.sort`: the original filter is
   * built by `construct` from the wrapper's dump (by alias when asked); a
   * validation error is re-raised as a request validation error with the
   * same details, any other error goes through as it is, and on success
   * `delegate` runs the operation on the rebuilt filter with the query.
   */
  function Wrapped<Q>(op: Operation, wrapper: Instance, byAlias: bool,
                      construct: Dict -> Result<Instance, Error>,
                      delegate: (Operation, Instance, Q) -> Q, query: Q): (r: Result<Q, Error>)
    ensures r.Ok? <==> construct(Dump(wrapper, byAlias)).Ok?
    ensures r.Err? ==> !r.error.ValidationError?
  {
    match construct(Dump(wrapper, byAlias))
    case Ok(original) => Ok(delegate(op, original, query))
    case Err(ValidationError(details)) => Err(RequestValidationError(details))
    case Err(e) => Err(e)
  }

  /**
   * The call is passed on exactly when the original filter can be rebuilt,
   * and then with the same operation and query; otherwise the error carries
   * the same details and nothing is delegated, whatever the delegate would do.
   */
  lemma WrappedDelegatesOnlyOnSuccess<Q>(op: Operation, wrapper: Instance, byAlias: bool,
                                         construct: Dict -> Result<Instance, Error>,
                                         delegate: (Operation, Instance, Q) -> Q, query: Q)
    ensures Wrapped(op, wrapper, byAlias, construct, delegate, query).Ok? <==>
      construct(Dump(wrapper, byAlias)).Ok?
    ensures construct(Dump(wrapper, byAlias)).Ok? ==>
      Wrapped(op, wrapper, byAlias, construct, delegate, query).value ==
        delegate(op, construct(Dump(wrapper, byAlias)).value, query)
    ensures construct(Dump(wrapper, byAlias)).Err? ==>
      forall other: (Operation, Instance, Q) -> Q ::
        Wrapped(op, wrapper, byAlias, construct, other, query) == Wrapped(op, wrapper, byAlias, construct, delegate, query)
    ensures construct(Dump(wrapper, byAlias)).Err? && construct(Dump(wrapper, byAlias)).error.ValidationError? ==>
      Wrapped(op, wrapper, byAlias, construct, delegate, query) ==
        Err(RequestValidationError(construct(Dump(wrapper, byAlias)).error.details))
    ensures construct(Dump(wrapper, byAlias)).Err? && !construct(Dump(wrapper, byAlias)).error.ValidationError? ==>
      Wrapped(op, wrapper, byAlias, construct, delegate, query) == Err(construct(Dump(wrapper, byAlias)).error)
  {
  }

  /** `filter` and `sort` rebuild the filter the same way: they fail or succeed together. */
  lemma FilterAndSortAgree<Q>(wrapper: Instance, byAlias: bool, construct: Dict -> Result<Instance, Error>,
                              delegate: (Operation, Instance, Q) -> Q, query: Q)
    ensures Wrapped(Filter, wrapper, byAlias, construct, delegate, query).Ok? <==>
      Wrapped(Sort, wrapper, byAlias, construct, delegate, query).Ok?
    ensures Wrapped(Filter, wrapper, byAlias, construct, delegate, query).Err? ==>
      Wrapped(Filter, wrapper, byAlias, construct, delegate, query) ==
        Wrapped(Sort, wrapper, byAlias, construct, delegate, query)
  {
  }
}
