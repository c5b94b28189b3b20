/** The Python dispatch layer of the image reader and writer: how a format
    string is obtained (given, derived from the file name, or detected from
    the bytes), which reader it selects, what is checked before anything is
    written, and which options the writer receives. The native codecs are
    the uninterpreted functions of `ImageTypes.Externals`. */
module Dispatch {
  import opened Outcomes
  import opened PyText
  import opened PosixPath
  import opened ImageTypes
  import Special

  /* ---------- Format strings ---------- */

  function CouldNotIdentifyMessage(funcname: string, filename: string): string {
    "imread." + funcname + ": Could not identify format from filename: `" + filename + "`"
  }

  /** `_parse_formatstr`, the read-side format: an explicit format string is
      returned as it is, whatever the file name; otherwise the file name's
      extension (as `os.path.splitext` finds it) without its dot, in lower
      case; a file name without an extension raises `ValueError`. */
  function ParseFormatStr(filename: string, formatstr: Option<string>, funcname: string): (r: Result<string, Error>)
    ensures formatstr.Some? ==> r == Success(formatstr.value)
    ensures formatstr.None? ==> (r.Success? <==> SplitExt(filename).1 != [])
    ensures formatstr.None? && r.Success? ==>
      && RFind(filename, '.') >= 0
      && r.value == Lower(filename[RFind(filename, '.') + 1..])
      && '.' !in r.value && '/' !in r.value
      && (forall i :: 0 <= i < |r.value| ==> !IsAsciiUpper(r.value[i]))
    ensures r.Failure? ==> r.error == ValueError(CouldNotIdentifyMessage(funcname, filename))
  {
    if formatstr.Some? then Success(formatstr.value)
    else
      var ext := SplitExt(filename).1;
      if |ext| > 0 && ext[0] == '.' then
        ExtensionFormat(filename);
        Success(Lower(ext[1..]))
      else
        Failure(ValueError(CouldNotIdentifyMessage(funcname, filename)))
  }

  /** The format `_parse_formatstr` derives from a non-empty extension is the
      text after the last dot, in lower case, with no dot, separator or
      upper-case ASCII letter in it. */
  lemma ExtensionFormat(filename: string)
    requires SplitExt(filename).1 != []
    ensures var f := Lower(SplitExt(filename).1[1..]);
      && RFind(filename, '.') >= 0
      && f == Lower(filename[RFind(filename, '.') + 1..])
      && '.' !in f && '/' !in f
      && (forall i :: 0 <= i < |f| ==> !IsAsciiUpper(f[i]))
  {
    var e := SplitExt(filename).1[1..];
    ExtensionAtLastDot(filename);
    assert e == filename[RFind(filename, '.') + 1..];
    LowerKeeps(e, '.');
    LowerKeeps(e, '/');
  }

  /** Without an explicit format, `_parse_formatstr` succeeds exactly for
      the names that have an extension dot: the last dot, with no separator
      after it and a non-dot character before it in the same component. */
  lemma ParseFormatStrSucceedsIff(filename: string, funcname: string)
    ensures ParseFormatStr(filename, None, funcname).Success? <==> exists d :: ExtensionDot(filename, d)
  {
    SplitExtCharacterized(filename);
  }

  function DotNotFoundMessage(funcname: string, filename: string): string {
    "imread." + funcname + ": dot not found in filename (" + filename + ")"
  }

  /** The write-side format of `imsave` and `imsave_multi`: an explicit format
      string is returned as it is; otherwise everything after the last dot of
      the whole path, with its case kept (it may be empty, or contain `/`); a
      path without any dot raises `ValueError`. */
  function WriteFormat(filename: string, formatstr: Option<string>, funcname: string): (r: Result<string, Error>)
    ensures formatstr.Some? ==> r == Success(formatstr.value)
    ensures formatstr.None? ==> (r.Success? <==> '.' in filename)
    ensures formatstr.None? && r.Success? ==>
      && |r.value| < |filename|
      && filename[|filename| - |r.value| - 1] == '.'
      && filename[|filename| - |r.value|..] == r.value
      && '.' !in r.value
    ensures r.Failure? ==> r.error == ValueError(DotNotFoundMessage(funcname, filename))
  {
    if formatstr.Some? then Success(formatstr.value)
    else
      var dot := RFind(filename, '.');
      RFindAbsent(filename, '.');
      if dot < 0 then Failure(ValueError(DotNotFoundMessage(funcname, filename)))
      else
        var f := filename[dot + 1..];
        assert forall i :: 0 <= i < |f| ==> f[i] == filename[dot + 1 + i];
        Success(f)
  }

  /* ---------- Reader selection ---------- */

  /** The reader `imread` calls: the native one, or an entry of the table. */
  datatype Reader = NativeReader | SpecialReader(handler: Special.Handler)

  /** `special.get(formatstr, cimread.imread)`: the special handler is chosen
      exactly for the one key of the table, `xcf`. */
  function SelectReader(formatstr: string): (r: Reader)
    ensures r.SpecialReader? <==> formatstr == "xcf"
    ensures r.SpecialReader? ==> r.handler == Special.ReadXcf
  {
    if formatstr in Special.Table then SpecialReader(Special.Table[formatstr]) else NativeReader
  }

  /** `reader(filename, formatstr, opts)` */
  function RunReader(ext: Externals, reader: Reader, filename: string, formatstr: string, opts: Opts): Result<Decoded, Error> {
    match reader
    case NativeReader => ext.read(filename, formatstr, opts)
    case SpecialReader(h) => Special.RunHandler(ext, h, filename, formatstr, opts)
  }

  /** What the readers hand back to their caller: the decoder's image, paired
      with its metadata exactly when `return_metadata` is set; a decoder error
      passes through. */
  function Deliver(d: Result<Decoded, Error>, returnMetadata: bool): (r: Result<ReadResult, Error>)
    ensures d.Failure? ==> r == Failure(d.error)
    ensures d.Success? ==> r.Success? && r.value.image == d.value.image
    ensures r.Success? ==> (r.value.ImageWithMeta? <==> returnMetadata)
    ensures r.Success? && returnMetadata ==> r.value.meta == d.value.meta
  {
    match d
    case Failure(e) => Failure(e)
    case Success(dec) =>
      if returnMetadata then Success(ImageWithMeta(dec.image, dec.meta)) else Success(Image(dec.image))
  }

  /* ---------- Readers ---------- */

  /** `imread(filename, formatstr=..., return_metadata=..., opts=...)`: the
      format is resolved first, and a name it cannot be resolved from fails
      before any reader is chosen or called; absent options are `{}`. */
  function ImRead(ext: Externals, filename: string, formatstr: Option<string>, returnMetadata: bool, opts: Option<Opts>): (r: Result<ReadResult, Error>)
    ensures ParseFormatStr(filename, formatstr, "imread").Failure? ==>
      r == Failure(ValueError(CouldNotIdentifyMessage("imread", filename)))
    ensures r.Success? ==> (r.value.ImageWithMeta? <==> returnMetadata)
  {
    var format :- ParseFormatStr(filename, formatstr, "imread");
    var reader := SelectReader(format);
    Deliver(RunReader(ext, reader, filename, format, opts.GetOr(map[])), returnMetadata)
  }

  /** `imread_from_blob(blob, formatstr=..., return_metadata=..., opts=...)`:
      the format is detected from the bytes only when none is given, and an
      error the detector raises is raised before the blob is read; the
      detector's answer, possibly `None`, goes to the native blob reader,
      which is always the one called. */
  function ImReadFromBlob(ext: Externals, blob: Bytes, formatstr: Option<string>, returnMetadata: bool, opts: Option<Opts>): (r: Result<ReadResult, Error>)
    ensures formatstr.Some? ==>
      r == Deliver(ext.readFromBlob(blob, formatstr, opts.GetOr(map[])), returnMetadata)
    ensures formatstr.None? && ext.detectFormat(blob).Failure? ==>
      r == Failure(ext.detectFormat(blob).error)
    ensures formatstr.None? && ext.detectFormat(blob).Success? ==>
      r == Deliver(ext.readFromBlob(blob, ext.detectFormat(blob).value, opts.GetOr(map[])), returnMetadata)
    ensures r.Success? ==> (r.value.ImageWithMeta? <==> returnMetadata)
  {
    var format :- if formatstr.None? then ext.detectFormat(blob) else Success(formatstr);
    Deliver(ext.readFromBlob(blob, format, opts.GetOr(map[])), returnMetadata)
  }

  /** `imread_multi(filename, formatstr=...)`: the format is resolved as for
      `imread` (and a failure names `imread`), then the native multi-page
      reader is called with an empty flag string; the table is not consulted. */
  function ImReadMulti(ext: Externals, filename: string, formatstr: Option<string>): (r: Result<seq<NdArray>, Error>)
    ensures ParseFormatStr(filename, formatstr, "imread").Failure? ==>
      r == Failure(ValueError(CouldNotIdentifyMessage("imread", filename)))
    ensures ParseFormatStr(filename, formatstr, "imread").Success? ==>
      r == ext.readMulti(filename, ParseFormatStr(filename, formatstr, "imread").value, "")
  {
    var format :- ParseFormatStr(filename, formatstr, "imread");
    ext.readMulti(filename, format, "")
  }

  /* ---------- Writers ---------- */

  const IntegerOnlyMessage: string := "imread.imsave: only integer images are supported"

  /** Every array has an integer element type. */
  predicate AllInteger(arrays: seq<NdArray>) {
    forall i :: 0 <= i < |arrays| ==> IsIntegerDType(arrays[i].dtype)
  }

  /** The options `imsave` hands to the native writer: the caller's, with the
      key `metadata` set to the metadata when there is any; every other key
      keeps its value. */
  function WithMetadata(opts: Opts, metadata: Option<Bytes>): (r: Opts)
    ensures metadata.None? ==> r == opts
    ensures metadata.Some? ==> r.Keys == opts.Keys + {"metadata"} && r["metadata"] == BytesOpt(metadata.value)
    ensures forall k :: k in opts && k != "metadata" ==> k in r && r[k] == opts[k]
  {
    if metadata.Some? then opts["metadata" := BytesOpt(metadata.value)] else opts
  }

  /** `imsave(filename, array, formatstr=..., metadata=..., opts=...)`: a
      non-integer array raises `TypeError` before anything else; then the
      write-side format is derived; only then is the metadata stored into the
      caller's own options dictionary (or into a fresh one when none was
      given), which the native writer receives. A call that raises
      `TypeError` or `ValueError` here leaves the caller's dictionary as it
      was; once both checks pass the metadata stays stored, whatever the
      native writer returns, an error included. */
  method ImSave(ext: Externals, filename: string, image: NdArray, formatstr: Option<string>, metadata: Option<Bytes>, opts: OptsDict?)
    returns (r: Outcome<Error>)
    modifies opts
    ensures !IsIntegerDType(image.dtype) ==> r == Fail(TypeError(IntegerOnlyMessage))
    ensures IsIntegerDType(image.dtype) && WriteFormat(filename, formatstr, "imsave").Failure? ==>
      r == Fail(ValueError(DotNotFoundMessage("imsave", filename)))
    ensures IsIntegerDType(image.dtype) && WriteFormat(filename, formatstr, "imsave").Success? ==>
      r == ext.save(filename, WriteFormat(filename, formatstr, "imsave").value, image,
                    WithMetadata(if opts == null then map[] else old(opts.entries), metadata))
    ensures opts != null ==>
      opts.entries == if IsIntegerDType(image.dtype) && WriteFormat(filename, formatstr, "imsave").Success?
                      then WithMetadata(old(opts.entries), metadata)
                      else old(opts.entries)
  {
    var d: OptsDict;
    if opts == null {
      d := new OptsDict();
    } else {
      d := opts;
    }
    if !IsIntegerDType(image.dtype) {
      return Fail(TypeError(IntegerOnlyMessage));
    }
    var format := WriteFormat(filename, formatstr, "imsave");
    if format.Failure? {
      return Fail(format.error);
    }
    if metadata.Some? {
      d.SetItem("metadata", BytesOpt(metadata.value));
    }
    r := ext.save(filename, format.value, image, d.entries);
  }

  /** `imsave_multi(filename, arrays, formatstr=..., opts=...)`: one
      non-integer array among them raises `TypeError` for the whole call,
      before the format is derived; otherwise the native multi-page writer
      receives every array and the options as given (`{}` when absent). */
  method ImSaveMulti(ext: Externals, filename: string, arrays: seq<NdArray>, formatstr: Option<string>, opts: Option<Opts>)
    returns (r: Outcome<Error>)
    ensures !AllInteger(arrays) ==> r == Fail(TypeError(IntegerOnlyMessage))
    ensures AllInteger(arrays) && WriteFormat(filename, formatstr, "imsave_multi").Failure? ==>
      r == Fail(ValueError(DotNotFoundMessage("imsave_multi", filename)))
    ensures AllInteger(arrays) && WriteFormat(filename, formatstr, "imsave_multi").Success? ==>
      r == ext.saveMulti(filename, WriteFormat(filename, formatstr, "imsave_multi").value, arrays, opts.GetOr(map[]))
  {
    var options := opts.GetOr(map[]);
    for i := 0 to |arrays|
      invariant forall j :: 0 <= j < i ==> IsIntegerDType(arrays[j].dtype)
    {
      if !IsIntegerDType(arrays[i].dtype) {
        return Fail(TypeError(IntegerOnlyMessage));
      }
    }
    var format := WriteFormat(filename, formatstr, "imsave_multi");
    if format.Failure? {
      return Fail(format.error);
    }
    r := ext.saveMulti(filename, format.value, arrays, options);
  }
}
