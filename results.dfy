/** Option and Result wrappers, and the failures the lifecycle extensions raise. */
module Results {

  datatype Option<T> = None | Some(value: T)

  /** The IllegalStateExceptions thrown by the extension getters, one constructor per message. */
  datatype Failure =
    | ViewModelProviderBeforeCreated   // "Cannot create ViewModelProvider until LifecycleOwner is in created state."
    | NoFragmentActivity               // "Could not find FragmentActivity for ..."
    | NotAttachedToParent              // "View is not attached to a parent."

  datatype Result<T> = Ok(value: T) | Err(failure: Failure)
}
