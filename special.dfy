/** The table of formats that bypass the native reader, and the guard of the
    one reader it holds. */
module Special {
  import opened Outcomes
  import opened ImageTypes

  /** The readers the table can name. */
  datatype Handler = ReadXcf

  /** `special`: the format string `xcf` and nothing else. */
  const Table: map<string, Handler> := map["xcf" := ReadXcf]

  const XcfFormatMessage: string := "imread.imread.readxcf: Format string must be 'xcf'"

  /** `readxcf(xcf_filename, formatstr, _flags)`: any format string other
      than `xcf` is refused with a `ValueError`; for `xcf` the file is
      converted by the external tool and the converted image is returned.
      The flags are ignored. */
  function ReadXcfFile(ext: Externals, filename: string, formatstr: string, flags: Opts): (r: Result<Decoded, Error>)
    ensures formatstr != "xcf" ==> r == Failure(ValueError(XcfFormatMessage))
    ensures formatstr == "xcf" ==> r == ext.convertXcf(filename)
  {
    if formatstr != "xcf" then Failure(ValueError(XcfFormatMessage))
    else ext.convertXcf(filename)
  }

  /** Calling the reader a table entry names. */
  function RunHandler(ext: Externals, h: Handler, filename: string, formatstr: string, flags: Opts): Result<Decoded, Error> {
    match h
    case ReadXcf => ReadXcfFile(ext, filename, formatstr, flags)
  }
}
