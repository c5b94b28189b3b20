/** The values the dispatch layer passes around: numpy element types and
    arrays (opaque apart from their element type), the `opts` dictionary, the
    exceptions it raises, and the native collaborators it calls. */
module ImageTypes {
  import opened Outcomes

  type Bytes = seq<bv8>

  /** The numpy element types an array handed to the writers may carry. */
  datatype DType =
    | Bool
    | Int8 | Int16 | Int32 | Int64
    | UInt8 | UInt16 | UInt32 | UInt64
    | Float16 | Float32 | Float64
    | Complex64 | Complex128
    | Timedelta64 | Datetime64
    | Object

  /** `np.issubdtype(dtype, np.integer)`: the signed and unsigned integer
      types, and `timedelta64`, which numpy places under `signedinteger`;
      `bool` is not an integer type for numpy. */
  predicate IsIntegerDType(t: DType) {
    t.Int8? || t.Int16? || t.Int32? || t.Int64? ||
    t.UInt8? || t.UInt16? || t.UInt32? || t.UInt64? ||
    t.Timedelta64?
  }

  /** numpy's `dtype.kind` code of each element type. */
  function Kind(t: DType): char {
    match t
    case Bool => 'b'
    case Int8 | Int16 | Int32 | Int64 => 'i'
    case UInt8 | UInt16 | UInt32 | UInt64 => 'u'
    case Float16 | Float32 | Float64 => 'f'
    case Complex64 | Complex128 => 'c'
    case Timedelta64 => 'm'
    case Datetime64 => 'M'
    case Object => 'O'
  }

  /** The integer element types are those of kind signed (`i`), unsigned
      (`u`) and timedelta (`m`); booleans, floating-point, complex,
      datetime and object arrays are not integer. */
  lemma IntegerDTypes(t: DType)
    ensures IsIntegerDType(t) <==> Kind(t) in {'i', 'u', 'm'}
    ensures !IsIntegerDType(Bool) && IsIntegerDType(Timedelta64) && !IsIntegerDType(Datetime64)
    ensures IsIntegerDType(t) ==> !t.Float16? && !t.Float32? && !t.Float64? && !t.Complex64? && !t.Complex128? && !t.Object?
  {
  }

  /** A numpy array; its shape and raw buffer are opaque to this layer. */
  datatype NdArray = NdArray(dtype: DType, shape: seq<nat>, buffer: Bytes)

  /** A value in an `opts` dictionary. */
  datatype OptValue = BoolOpt(b: bool) | IntOpt(i: int) | StrOpt(s: string) | BytesOpt(bytes: Bytes)

  type Opts = map<string, OptValue>

  /** The exceptions this layer raises, and those the native code raises,
      which it lets through. */
  datatype Error =
    | ValueError(msg: string)
    | TypeError(msg: string)
    | NativeError(msg: string)

  /** What a reader returns: the pixels and the file's metadata, if any. */
  datatype Decoded = Decoded(image: NdArray, meta: Option<Bytes>)

  /** What `imread` and `imread_from_blob` return: the image alone, or the
      pair `(image, meta)` when `return_metadata` is set. */
  datatype ReadResult = Image(image: NdArray) | ImageWithMeta(image: NdArray, meta: Option<Bytes>)

  /** The collaborators whose code is not part of this model, as uninterpreted
      functions: the entry points of the native extension `cimread`, and the
      `xcf2png` conversion that `readxcf` performs before reading the PNG it
      produces. */
  datatype Externals = Externals(
    read: (string, string, Opts) -> Result<Decoded, Error>,
    readFromBlob: (Bytes, Option<string>, Opts) -> Result<Decoded, Error>,
    readMulti: (string, string, string) -> Result<seq<NdArray>, Error>,
    save: (string, string, NdArray, Opts) -> Outcome<Error>,
    saveMulti: (string, string, seq<NdArray>, Opts) -> Outcome<Error>,
    detectFormat: Bytes -> Result<Option<string>, Error>,
    convertXcf: string -> Result<Decoded, Error>
  )

  /** A Python `dict` of options that a caller hands in and that the writer
      may update in place. */
  class OptsDict {
    var entries: Opts

    constructor ()
      ensures entries == map[]
    {
      entries := map[];
    }

    /** `d[key] = value` */
    method SetItem(key: string, value: OptValue)
      modifies this
      ensures entries == old(entries)[key := value]
    {
      entries := entries[key := value];
    }
  }
}
