/**
 * `PassThroughModel`, the adapter that stores nothing: `exists` is always false and `add`
 * returns an empty list. It has no fields, so neither call changes anything. The repository
 * defines it twice, in `pipeline_async/model/passthrough.py` and inline in
 * `pipeline_async/model.py`; the two differ in which method takes `check_exists`.
 */
module PassThrough {
  import opened Results

  /** The outcome of a Python call: a returned value, or the `TypeError` of an unexpected argument. */
  datatype Outcome<T> = Returned(value: T) | UnexpectedArgument

  /** `PassThroughModel.exists(data)`: nothing is ever stored, so nothing exists. */
  function Exists<T>(data: T): (found: bool)
    ensures !found
  {
    false
  }

  /** `PassThroughModel.add(data, check_exists=True)`: no ids, whether or not the check is asked for. */
  function Add<T>(data: T, checkExists: bool): (ids: seq<int>)
    ensures |ids| == 0
  {
    []
  }

  /** The result of `add` does not depend on `check_exists` or on the data. */
  lemma AddIgnoresArguments<T>(d1: T, d2: T, c1: bool, c2: bool)
    ensures Add(d1, c1) == Add(d2, c2)
  {
  }

  /**
   * The inline `PassThroughModel.exists(data, check_exists=True)` of `model.py`: it accepts a
   * `check_exists` it ignores.
   */
  function InlineExists<T>(data: T, checkExists: Option<bool>): (o: Outcome<bool>)
    ensures o.Returned? && !o.value
  {
    Returned(false)
  }

  /**
   * The inline `PassThroughModel.add(data)` of `model.py`: it takes no `check_exists`, so a call
   * that passes one, as the abstract `Model.add(data, check_exists=True)` allows, is a
   * `TypeError`.
   */
  function InlineAdd<T>(data: T, checkExists: Option<bool>): (o: Outcome<seq<int>>)
    ensures o.UnexpectedArgument? <==> checkExists.Some?
    ensures o.Returned? ==> o.value == []
  {
    if checkExists.Some? then UnexpectedArgument else Returned([])
  }

  /** Called as the abstract `Model` interface allows, the inline copy and `passthrough.py` agree. */
  lemma VariantsAgree<T>(data: T, checkExists: bool)
    ensures InlineExists(data, None) == Returned(Exists(data))
    ensures InlineAdd(data, None) == Returned(Add(data, checkExists))
  {
  }

  /**
   * `add(data, check_exists=False)`, a call the abstract interface permits and `SqlModel` and
   * `MongoModel` accept, fails on the inline copy but returns `[]` from `passthrough.py`.
   */
  lemma InlineAddRejectsCheckExists<T>(data: T, checkExists: bool)
    ensures InlineAdd(data, Some(checkExists)) == UnexpectedArgument
    ensures Add(data, checkExists) == []
  {
  }
}
