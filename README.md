# imread format resolution and dispatch, in Dafny

This project models the Python layer of the `imread` image library
(`caerimread/imread.py`). That layer sits in front of the native codec
extension `cimread`. It decides:

- which format string a read or a write uses: the caller's own, one derived
  from the file name, or one detected from the bytes of a blob;
- which reader `imread` calls: the native one, or the entry of the `special`
  table (`xcf`, which converts through the external `xcf2png` tool);
- what is rejected before anything is written (non-integer arrays, paths
  without a dot);
- which options the native writer receives, including the `metadata` key
  that `imsave` stores into the caller's own options dictionary.

The native codecs, format detection and the `xcf2png` conversion are not
modelled. They are the uninterpreted function fields of
`ImageTypes.Externals`, passed as a parameter to every operation that calls
native code.

Modules:

- `Outcomes`: `Option` (a Python argument that may be `None`), `Result` (a
  value or an exception) and `Outcome` (`None` or an exception).
- `PyText`: `str.rfind` of one character and `str.lower`.
- `PosixPath`: POSIX `os.path.splitext`, both as a specification function and
  as the scanning loop the standard library runs.
- `ImageTypes`: numpy element types, arrays, option values, exceptions, the
  native collaborators, and `OptsDict`, a Python `dict` that is updated in
  place.
- `Special`: the `special` table and the format guard of `readxcf`.
- `Dispatch`: `_parse_formatstr`, the write-side format, reader selection,
  `imread`, `imread_from_blob`, `imread_multi`, `imsave` and `imsave_multi`.
- `ImReadProperties`: lemmas that relate these operations, and worked
  examples.

The read side and the write side derive formats by different rules:

- `imread` lowercases the `splitext` extension. It finds none in `README`,
  `.bashrc` or `dir.d/file`.
- `imsave` keeps the case of everything after the last dot of the whole
  path. So `dir.d/file` gives `d/file`, `a.b/c` gives `b/c`, and `x.` gives
  the empty format.

`ReadFormatIsLoweredWriteFormat` proves that whenever the read side finds a
format, it is the write-side format in lower case. `WriteFormatWithoutReadFormat`
shows that the converse fails.

Two details of the code are kept as written:

- `imread_multi` reports an unidentifiable name as `imread.imread: ...`,
  because it passes `'imread'` as the caller's name.
- `imsave_multi` raises the `TypeError` text `imread.imsave: only integer
  images are supported`.

`caerimread/imread.py` also defines a public `readxcf` with the same guard
as the one in `caerimread/special.py`. The table refers to the copy in
`special.py`. `Special.ReadXcfFile` models both.

The docstring of `imsave_multi` documents a `metadata` parameter that its
signature does not have. The model follows the signature.

## Model

| member | source | states |
|---|---|---|
| `PyText.RFind` | caerimread/imread.py:217 | `rfind` returns the index of the last occurrence of the character, or -1; no later index holds it |
| `PyText.RFindAbsent` | caerimread/imread.py:217-218 | `rfind` is negative exactly when the character does not occur, so `dot < 0` means "no dot in the path" |
| `PyText.Lower` | caerimread/imread.py:19 | `lower()` keeps the length and lowercases each character |
| `PyText.LowerKeeps` | caerimread/imread.py:19 | lowercasing neither adds nor removes `.` or `/`, and leaves no upper-case ASCII letter |
| `PyText.LowerIdempotent` | caerimread/imread.py:19 | lowercasing an already lowered format changes nothing |
| `PosixPath.SplitExt` | caerimread/imread.py:17 | `splitext` splits the path into root + extension, and the extension is empty or a dot followed by no dot and no `/` |
| `PosixPath.SplitExtCharacterized` | caerimread/imread.py:17-18 | the extension is non-empty exactly when the last dot follows the last `/` and some non-dot character precedes it in that component; it then starts at that dot |
| `PosixPath.ScanSplitExt` | caerimread/imread.py:17 | the leading-dot scan that `splitext` performs computes exactly `SplitExt` |
| `ImReadProperties.ExtensionOfLastComponent` | caerimread/imread.py:17 | the extension of `dir/name` is that of `name`: directories never contribute a format |
| `ImReadProperties.SplitExtExamples` | caerimread/imread.py:17 | `photo.JPG`, `archive.tar.gz` and `a.` have extensions `.JPG`, `.gz` and `.`; `README`, `.bashrc` and `dir.d/file` have none |
| `Dispatch.ParseFormatStr` | caerimread/imread.py:13-20 | an explicit format is returned unchanged whatever the name; otherwise it succeeds exactly when `splitext` finds an extension, and the result is the text after the last dot, lowercased, with no `.`, `/` or upper-case ASCII letter; failure is `ValueError` naming the caller and the file |
| `Dispatch.ExtensionFormat` | caerimread/imread.py:17-19 | the format taken from a non-empty extension is the text after the path's last dot, lowercased, and contains no `.`, `/` or upper-case ASCII letter |
| `Dispatch.ParseFormatStrSucceedsIff` | caerimread/imread.py:17-20 | with no explicit format, the derivation succeeds exactly when the name has an extension dot: the last dot, with no `/` after it and a non-dot character before it in the same component |
| `ImReadProperties.ParseFormatStrExamples` | caerimread/imread.py:13-20 | `photo.JPG` gives `jpg`, `a.` gives the empty format, an explicit `png` wins over `README`; `README`, `.bashrc` and `dir.d/file` raise `ValueError` |
| `Dispatch.WriteFormat` | caerimread/imread.py:216-220 | an explicit format is returned unchanged; otherwise it succeeds exactly when the path has a dot, with the longest dot-free suffix after a dot, case kept; failure is `ValueError` "dot not found" naming the caller and the file |
| `ImReadProperties.WriteFormatExamples` | caerimread/imread.py:216-220 | `photo.JPG` gives `JPG`, `a.b/c` gives `b/c`, `x.` gives the empty format, `.bashrc` gives `bashrc`, `README` raises |
| `ImReadProperties.ReadFormatIsLoweredWriteFormat` | caerimread/imread.py:13-20 | whenever `_parse_formatstr` derives a format, the write-side rule of `imsave` and `imsave_multi` (lines 216-220 and 272-276) derives one too, and the read-side format is the write-side one lowercased |
| `ImReadProperties.WriteFormatWithoutReadFormat` | caerimread/imread.py:216-220 | the converse fails: `dir.d/file` and `.bashrc` have a write-side format and no read-side one |
| `ImReadProperties.NoDotNoFormat` | caerimread/imread.py:18-20 | a name without any dot has neither a read-side nor a write-side format |
| `ImReadProperties.SpecialTableKeys` | caerimread/special.py:36-38 | the `special` table has exactly the key `xcf` |
| `Special.ReadXcfFile` | caerimread/special.py:27-28 | `readxcf` refuses any format other than `xcf` with its `ValueError`, and otherwise returns the converted image |
| `Dispatch.SelectReader` | caerimread/imread.py:81 | the special handler is selected exactly for `xcf`, and it is `readxcf`; every other format selects the native reader |
| `Dispatch.Deliver` | caerimread/imread.py:85-87 | a reader error passes through; otherwise the decoded image is returned, paired with the metadata exactly when `return_metadata` is set |
| `Dispatch.ImRead` | caerimread/imread.py:76-87 | a name the format cannot be derived from raises `ValueError` before any reader runs; a success is a pair exactly when `return_metadata` is set |
| `ImReadProperties.ImReadDispatch` | caerimread/imread.py:80-82 | once the format is resolved, `imread` returns the `xcf` conversion for `xcf` (the `readxcf` guard never fires there) and the native reader's result, with the format and options as given, for every other format |
| `ImReadProperties.ImReadResolvesFirst` | caerimread/imread.py:80-82 | when the format cannot be resolved, the outcome of `imread` and `imread_multi` does not depend on the codecs |
| `Dispatch.ImReadFromBlob` | caerimread/imread.py:131-140 | an explicit format goes to the native blob reader untouched; without one, an error from the detector is raised before the blob is read, and otherwise the detector's answer goes to the reader; the result is a pair exactly when `return_metadata` is set |
| `ImReadProperties.BlobDetectsOnlyWithoutFormat` | caerimread/imread.py:134-135 | with an explicit format, replacing the detector changes nothing; without one, a detector error is the result whatever the blob reader is, and a detected format gives the result of passing it explicitly |
| `Dispatch.ImReadMulti` | caerimread/imread.py:163-165 | the format is resolved as for `imread`, and a failure names `imread`; then the native multi-page reader gets the format and an empty flag string |
| `ImReadProperties.XcfOnlyThroughImRead` | caerimread/imread.py:164-165 | an explicit `xcf` makes `imread` convert the file, while `imread_multi` hands `xcf` to the native reader |
| `Dispatch.WithMetadata` | caerimread/imread.py:221-222 | the options gain the key `metadata` holding the metadata when there is some, are unchanged otherwise, and every other key keeps its value |
| `ImageTypes.OptsDict.constructor` | caerimread/imread.py:210-211 | options that were not given start as an empty dictionary |
| `ImageTypes.OptsDict.SetItem` | caerimread/imread.py:222 | storing a key updates that key of the dictionary in place and nothing else |
| `ImageTypes.IntegerDTypes` | caerimread/imread.py:212-213 | `np.issubdtype(dtype, np.integer)` holds exactly for the element types of kind signed, unsigned and timedelta: int8-int64, uint8-uint64 and timedelta64; bool, float, complex, datetime64 and object arrays are not integer |
| `Dispatch.ImSave` | caerimread/imread.py:210-223 | a non-integer array raises `TypeError` before anything else; then a path without a dot raises `ValueError`; only after both checks does the caller's dictionary (or a fresh one) gain the metadata, and the native writer receives it; a call that raises `TypeError` or `ValueError` leaves the caller's dictionary as it was, while an error from the native writer leaves the metadata stored |
| `Dispatch.ImSaveMulti` | caerimread/imread.py:265-277 | one non-integer array raises `TypeError` for the whole call, before format derivation; otherwise the native multi-page writer receives all arrays, the derived format and the options (`{}` when absent) |

## Left out

- PyText.Lower: lowercases only the ASCII letters `A`-`Z` and leaves every other character unchanged. Python's `str.lower` also lowercases non-ASCII letters, so for an extension holding one the derived read-side format differs from Python's: the model gives `ParseFormatStr("a.É", None, "imread") == Success("É")`, where Python gives `é`.
- `_as_gray` and the `as_gray` parameter of `imread` and `imread_from_blob`: a floating-point weighted sum through `np.dot`. The model returns the decoder's image as it is, which is the default `as_gray=False` case.
- `_norm_path`: a runtime `os.PathLike` check. The model takes file names as strings, so it is the identity. Byte-string paths are not modelled either.
- `np.ascontiguousarray`: it changes memory layout only, so arrays pass to the writers unchanged.
- The native extension `cimread` is not part of this model. Its `imread`, `imread_from_blob`, `imread_multi`, `imsave`, `imsave_multi` and `detect_format` are uninterpreted functions in `ImageTypes.Externals`, with no contract beyond their types. Errors they raise pass through as `NativeError`.
- The `readxcf` body after its guard: a temporary file, a shell call to `xcf2png`, and a re-read of the PNG it produces. It is one uninterpreted function, `convertXcf`. The `OSError` that a failed `xcf2png` call raises is whatever failure `convertXcf` returns; the model has no separate constructor for it.
- `detect_format` for file names, and `supports_format`: both only forward to the native extension. The blob detection that `imread_from_blob` performs is modelled as `detectFormat`.
- The aliases `imload`, `imload_from_blob`, `imload_multi`, `imwrite` and `imwrite_multi`: they are the same functions.
- `imread/special.py`, which is an identical copy of `caerimread/special.py`; `imread/__init__.py`, which only re-exports names; and `setup.py`, which is build tooling.
- Array-like inputs to `imsave` and `imsave_multi`: the docstrings accept any "ndarray-like" value, but the code reads `.dtype` first, so a plain list raises `AttributeError` before the `TypeError` check. The model takes a typed `NdArray` and does not model that `AttributeError`.
- Pixel contents and shapes are opaque. Arrays carry only the element type that the writers check.
