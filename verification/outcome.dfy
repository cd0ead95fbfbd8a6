/** Failure-carrying results for the data loader. Each `LoadError` names the place where
    the loader raises and the Python exception it raises there; nothing is retried or skipped. */
module Outcome {

  datatype Option<+T> = None | Some(value: T)

  /** The failures of `VideoFolder.__getitem__` that the model covers, one constructor
      per failure: two IndexError sites, two KeyError sites, the slice read's ValueError,
      and `torch.cat`'s RuntimeError for an empty list and for mismatched shapes. */
  datatype LoadError =
    | IndexOutOfRange   // IndexError from `csv_data[index]`
    | UnknownVideo      // KeyError from `merged_meta_dict[item.id]`
    | UnknownLabel      // KeyError from `classes_dict[item.label]`
    | ZeroSliceStep     // ValueError from the slice read when `step_size` is 0
    | NoFrameToRepeat   // IndexError from `frames[-1]` on an empty fetched list
    | EmptyStack        // RuntimeError from `torch.cat(imgs)` on an empty list
    | ShapeMismatch     // RuntimeError from `torch.cat(imgs)` on frames whose shapes differ

  /** Success or the exception that ends the call; usable with `:-`. */
  datatype Result<+T> = Ok(value: T) | Err(error: LoadError) {

    predicate IsFailure() {
      Err?
    }

    function PropagateFailure<U>(): Result<U>
      requires Err?
    {
      Err(error)
    }

    function Extract(): T
      requires Ok?
    {
      value
    }
  }
}
