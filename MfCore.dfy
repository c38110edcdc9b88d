/** Value types shared by the whole model of Matft's vDSP and LAPACK glue. */
module MfCore {

  datatype Option<T> = None | Some(value: T)

  datatype Result<T, E> = Success(value: T) | Failure(error: E)

  /** The two element precisions an mfarray can be stored in. */
  datatype StoredType = Float | Double

  /** Sort direction handed to vDSP_vsort / vDSP_vsorti. */
  datatype SortOrder = Ascending | Descending

  /**
   * A strided view: its stored elements (already row-contiguous wherever the
   * code calls check_contiguous or to_contiguous first), shape and strides.
   * Element values are modelled as reals.
   */
  datatype MfArray = MfArray(data: seq<real>, shape: seq<nat>, strides: seq<int>)

  function Abs(x: real): real
  {
    if x < 0.0 then -x else x
  }
}
