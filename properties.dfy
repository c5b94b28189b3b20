/** Properties of the dispatch layer that relate several of its operations,
    and worked examples of its format derivations. */
module ImReadProperties {
  import opened Outcomes
  import opened PyText
  import opened PosixPath
  import opened ImageTypes
  import opened Dispatch
  import Special

  /* ---------- os.path.splitext ---------- */

  /** Whether a stretch has a non-dot character does not change when text is
      put in front of it. */
  lemma NonDotAfterPrefix(a: string, name: string, hi: int)
    requires 0 <= hi <= |name|
    ensures HasNonDot(a + name, |a|, |a| + hi) <==> HasNonDot(name, 0, hi)
  {
    var p := a + name;
    if HasNonDot(name, 0, hi) {
      var k :| 0 <= k < hi && name[k] != '.';
      assert p[|a| + k] == name[k];
    }
    if HasNonDot(p, |a|, |a| + hi) {
      var k :| |a| <= k < |a| + hi && p[k] != '.';
      assert name[k - |a|] == p[k];
    }
  }

  /** The extension of a path depends only on its last component. */
  lemma ExtensionOfLastComponent(dir: string, name: string)
    requires '/' !in name
    ensures SplitExt(dir + "/" + name).1 == SplitExt(name).1
  {
    var a := dir + "/";
    var p := a + name;
    RFindAbsent(name, '/');
    RFindAppend(a, name, '/');
    RFindUnique(a, '/', |dir|);
    assert RFind(p, '/') == |dir|;
    RFindAppend(a, name, '.');
    var dn := RFind(name, '.');
    if dn >= 0 {
      assert RFind(p, '.') == |a| + dn;
      NonDotAfterPrefix(a, name, dn);
      assert p[|a| + dn..] == name[dn..];
    } else {
      assert a[|dir|] == '/';
      assert RFind(p, '.') < |dir|;
    }
  }

  lemma SplitExtExamples()
    ensures SplitExt("photo.JPG") == ("photo", ".JPG")
    ensures SplitExt("archive.tar.gz") == ("archive.tar", ".gz")
    ensures SplitExt("README") == ("README", "")
    ensures SplitExt(".bashrc") == (".bashrc", "")
    ensures SplitExt("dir.d/file") == ("dir.d/file", "")
    ensures SplitExt("a.") == ("a", ".")
  {
    RFindUnique("photo.JPG", '.', 5);
    RFindUnique("photo.JPG", '/', -1);
    assert HasNonDot("photo.JPG", 0, 5) by { assert "photo.JPG"[0] != '.'; }
    assert "photo.JPG"[..5] == "photo" && "photo.JPG"[5..] == ".JPG";
    RFindUnique("archive.tar.gz", '.', 11);
    RFindUnique("archive.tar.gz", '/', -1);
    assert HasNonDot("archive.tar.gz", 0, 11) by { assert "archive.tar.gz"[0] != '.'; }
    assert "archive.tar.gz"[..11] == "archive.tar" && "archive.tar.gz"[11..] == ".gz";
    RFindUnique("README", '.', -1);
    RFindUnique("README", '/', -1);
    RFindUnique(".bashrc", '.', 0);
    RFindUnique(".bashrc", '/', -1);
    RFindUnique("dir.d/file", '.', 3);
    RFindUnique("dir.d/file", '/', 5);
    RFindUnique("a.", '.', 1);
    RFindUnique("a.", '/', -1);
    assert HasNonDot("a.", 0, 1) by { assert "a."[0] != '.'; }
    assert "a."[..1] == "a" && "a."[1..] == ".";
  }

  /* ---------- Read-side and write-side formats ---------- */

  /** Examples of the read-side format; the failures name the caller and the
      file. */
  lemma ParseFormatStrExamples()
    ensures ParseFormatStr("photo.JPG", None, "imread") == Success("jpg")
    ensures ParseFormatStr("a.", None, "imread") == Success("")
    ensures ParseFormatStr("README", Some("png"), "imread") == Success("png")
    ensures ParseFormatStr("README", None, "imread") == Failure(ValueError(CouldNotIdentifyMessage("imread", "README")))
    ensures ParseFormatStr(".bashrc", None, "imread").Failure?
    ensures ParseFormatStr("dir.d/file", None, "imread").Failure?
  {
    SplitExtExamples();
    assert ".JPG"[1..] == "JPG" && "."[1..] == "";
    var low := Lower("JPG");
    assert low[0] == 'j' && low[1] == 'p' && low[2] == 'g';
    assert low == "jpg";
  }

  /** Examples of the write-side format: the case is kept, the text after the
      last dot may be empty or cross a separator. */
  lemma WriteFormatExamples()
    ensures WriteFormat("photo.JPG", None, "imsave") == Success("JPG")
    ensures WriteFormat("a.b/c", None, "imsave") == Success("b/c")
    ensures WriteFormat("x.", None, "imsave") == Success("")
    ensures WriteFormat(".bashrc", None, "imsave") == Success("bashrc")
    ensures WriteFormat("README", None, "imsave") == Failure(ValueError(DotNotFoundMessage("imsave", "README")))
  {
    RFindUnique("photo.JPG", '.', 5);
    assert "photo.JPG"[6..] == "JPG";
    RFindUnique("a.b/c", '.', 1);
    assert "a.b/c"[2..] == "b/c";
    RFindUnique("x.", '.', 1);
    assert "x."[2..] == "";
    RFindUnique(".bashrc", '.', 0);
    assert ".bashrc"[1..] == "bashrc";
    RFindUnique("README", '.', -1);
  }

  /** Whenever the read side derives a format from a file name, the write side
      derives one too, and the read-side format is the write-side one in lower
      case. */
  lemma ReadFormatIsLoweredWriteFormat(filename: string, readName: string, writeName: string)
    requires ParseFormatStr(filename, None, readName).Success?
    ensures WriteFormat(filename, None, writeName).Success?
    ensures ParseFormatStr(filename, None, readName).value == Lower(WriteFormat(filename, None, writeName).value)
  {
    RFindAbsent(filename, '.');
  }

  /** The converse fails: a dot in an earlier directory, or the leading dot of
      a hidden file, gives a write-side format but no read-side one. */
  lemma WriteFormatWithoutReadFormat()
    ensures WriteFormat("dir.d/file", None, "imsave") == Success("d/file")
    ensures ParseFormatStr("dir.d/file", None, "imread").Failure?
    ensures WriteFormat(".bashrc", None, "imsave").Success?
    ensures ParseFormatStr(".bashrc", None, "imread").Failure?
  {
    SplitExtExamples();
    RFindUnique("dir.d/file", '.', 3);
    assert "dir.d/file"[4..] == "d/file";
    WriteFormatExamples();
  }

  /** A name without any dot has neither format. */
  lemma NoDotNoFormat(filename: string, readName: string, writeName: string)
    requires '.' !in filename
    ensures ParseFormatStr(filename, None, readName).Failure?
    ensures WriteFormat(filename, None, writeName).Failure?
  {
    if ParseFormatStr(filename, None, readName).Success? {
      ReadFormatIsLoweredWriteFormat(filename, readName, writeName);
    }
  }

  /* ---------- Reader selection ---------- */

  /** The table has exactly one key. */
  lemma SpecialTableKeys()
    ensures Special.Table.Keys == {"xcf"}
  {
  }

  /** Through `imread`, a resolved format selects the `xcf` converter exactly
      when it is `xcf`, so the guard of `readxcf` never fires there, and the
      native reader otherwise, with the format and the options as given. */
  lemma ImReadDispatch(ext: Externals, filename: string, formatstr: Option<string>, returnMetadata: bool, opts: Option<Opts>)
    requires ParseFormatStr(filename, formatstr, "imread").Success?
    ensures var format := ParseFormatStr(filename, formatstr, "imread").value;
      ImRead(ext, filename, formatstr, returnMetadata, opts) ==
        Deliver(if format == "xcf" then ext.convertXcf(filename) else ext.read(filename, format, opts.GetOr(map[])),
                returnMetadata)
  {
  }

  /** `imread` with the explicit format `xcf` converts the file, whatever its
      name is; `imread_multi` hands the same request to the native reader. */
  lemma XcfOnlyThroughImRead(ext: Externals, filename: string)
    ensures ImRead(ext, filename, Some("xcf"), false, None) == Deliver(ext.convertXcf(filename), false)
    ensures ImReadMulti(ext, filename, Some("xcf")) == ext.readMulti(filename, "xcf", "")
  {
  }

  /** Whether the read fails over the format does not depend on the codecs:
      the format is resolved before any reader runs. */
  lemma ImReadResolvesFirst(ext1: Externals, ext2: Externals, filename: string, returnMetadata: bool, opts: Option<Opts>)
    requires ParseFormatStr(filename, None, "imread").Failure?
    ensures ImRead(ext1, filename, None, returnMetadata, opts) == ImRead(ext2, filename, None, returnMetadata, opts)
    ensures ImReadMulti(ext1, filename, None) == ImReadMulti(ext2, filename, None)
  {
  }

  /* ---------- Reading from a blob ---------- */

  /** With an explicit format the detector is never consulted: any two
      detectors give the same result. Without one, a detector error is the
      result and the blob reader never runs; otherwise the detector's answer
      is what the blob reader receives, as if it had been passed explicitly. */
  lemma BlobDetectsOnlyWithoutFormat(ext: Externals, detect: Bytes -> Result<Option<string>, Error>, blob: Bytes, format: string, returnMetadata: bool, opts: Option<Opts>)
    ensures ImReadFromBlob(ext, blob, Some(format), returnMetadata, opts) ==
            ImReadFromBlob(ext.(detectFormat := detect), blob, Some(format), returnMetadata, opts)
    ensures ext.detectFormat(blob).Failure? ==>
            forall reader :: ImReadFromBlob(ext.(readFromBlob := reader), blob, None, returnMetadata, opts) ==
                             Failure(ext.detectFormat(blob).error)
    ensures ext.detectFormat(blob).Success? && ext.detectFormat(blob).value.Some? ==>
            ImReadFromBlob(ext, blob, None, returnMetadata, opts) ==
            ImReadFromBlob(ext, blob, ext.detectFormat(blob).value, returnMetadata, opts)
  {
  }

  /* ---------- Writing ---------- */

  /** A caller's view of `imsave`: a rejected float image leaves the caller's
      options untouched, and a successful derivation leaves the metadata in
      the caller's own dictionary next to the options it already held,
      whatever the native writer returns, an error included. */
  method CallerSeesMetadata(ext: Externals, pixels: Bytes, meta: Bytes)
  {
    var opts := new OptsDict();
    opts.SetItem("jpeg:quality", IntOpt(90));
    var r := ImSave(ext, "out.jpg", NdArray(Float64, [2, 2], pixels), None, Some(meta), opts);
    assert r == Fail(TypeError(IntegerOnlyMessage));
    assert opts.entries == map["jpeg:quality" := IntOpt(90)];
    RFindUnique("out.jpg", '.', 3);
    r := ImSave(ext, "out.jpg", NdArray(UInt8, [2, 2], pixels), None, Some(meta), opts);
    assert opts.entries == map["jpeg:quality" := IntOpt(90), "metadata" := BytesOpt(meta)];
  }
}
