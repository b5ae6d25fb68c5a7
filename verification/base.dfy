/** Shared vocabulary of the scene-packaging model: the outcome of an operation
    that can hit one of the scene manager's assertions, unsigned 32-bit
    indices, and the float3 point type (coordinates as reals). */
module Base {

  /** The ways a scene build stops. Each is an RT_ASSERT or a missing
      structure in the C++ code; none of them is recoverable there. */
  datatype Error =
    | NotAMaterial      // add_variant was handed an instance of no material type
    | MissingScope      // a reflected material property carries no GeoScope metadata
    | IndexOutOfRange   // addPolymesh found a global index at or past the point count
    | NotTriangles      // buildBVH found an index count that is not a multiple of 3
    | NoEnvmap          // createEnvmapBuffer was called before any envmap was built

  datatype Option<+T> = None | Some(value: T)

  /** A failure-compatible result, so that `:-` propagates the first failure. */
  datatype Result<+T> = Success(value: T) | Failure(error: Error) {
    predicate IsFailure() {
      Failure?
    }

    function PropagateFailure<U>(): Result<U>
      requires Failure?
    {
      Failure(error)
    }

    function Extract(): T
      requires Success?
    {
      value
    }
  }

  const UInt32Modulus: int := 0x1_0000_0000

  /** uint32_t */
  type U32 = x: int | 0 <= x < UInt32Modulus

  /** The value a uint32_t holds after an assignment or addition that may wrap. */
  function WrapU32(x: int): (r: U32)
    ensures r == x % UInt32Modulus
    ensures 0 <= x < UInt32Modulus ==> r == x
  {
    x % UInt32Modulus
  }

  /** OpenCLFloat3 / glm::vec3, with real coordinates. */
  datatype Float3 = Float3(x: real, y: real, z: real)

  /** FLT_MAX, the largest finite single-precision float. */
  const FltMax: real := 340282346638528859811704183484516925440.0

  /** A coordinate a single-precision float can hold without overflowing. */
  predicate Finite(v: real) {
    -FltMax <= v <= FltMax
  }
}
