/**
 The upload filter: which filenames the upload form accepts.
 */
module Upload {
  import opened PyStr

  /** The extensions an upload may carry, compared after lowering. */
  const AllowedExtensions: set<string> := {"png", "jpg", "jpeg", "pdf"}

  /** `allowed_file(filename)`: the name contains a dot, and the text after
      its LAST dot, lowered, is one of the allowed extensions. */
  predicate AllowedFile(filename: string) {
    '.' in filename && Lower(RSplitOnce(filename, '.')[1]) in AllowedExtensions
  }

  /** A name without a dot is never accepted. */
  lemma AllowedFileNoDot(filename: string)
    requires '.' !in filename
    ensures !AllowedFile(filename)
  {
  }

  /** Only the text after the last dot decides, case-insensitively: whatever
      precedes it (other dots included) plays no part. */
  lemma AllowedFileLastDot(head: string, ext: string)
    requires '.' !in ext
    ensures AllowedFile(head + "." + ext) <==> Lower(ext) in AllowedExtensions
  {
    RSplitOnceOf(head, ext, '.');
    assert (head + "." + ext)[|head|] == '.';
  }

  /** The characterisation: a name is accepted exactly when it ends in a dot
      followed by a dot-free extension that lowers to an allowed one. */
  lemma AllowedFileIff(filename: string)
    ensures AllowedFile(filename) <==>
      exists head, ext :: filename == head + "." + ext && '.' !in ext && Lower(ext) in AllowedExtensions
  {
    if AllowedFile(filename) {
      var parts := RSplitOnce(filename, '.');
      assert filename == parts[0] + "." + parts[1];
    }
    if exists head, ext :: filename == head + "." + ext && '.' !in ext && Lower(ext) in AllowedExtensions {
      var head, ext :| filename == head + "." + ext && '.' !in ext && Lower(ext) in AllowedExtensions;
      AllowedFileLastDot(head, ext);
    }
  }

  /** Lowering a name lowers the text after its last dot and moves no dot. */
  lemma LowerKeepsDots(s: string)
    ensures '.' in s <==> '.' in Lower(s)
  {
    if '.' in s {
      var i :| 0 <= i < |s| && s[i] == '.';
      assert Lower(s)[i] == '.';
    }
    if '.' in Lower(s) {
      var i :| 0 <= i < |s| && Lower(s)[i] == '.';
      assert s[i] == '.';
    }
  }

  /** The filter is case-insensitive in the whole name. */
  lemma AllowedFileIgnoresCase(filename: string)
    ensures AllowedFile(Lower(filename)) == AllowedFile(filename)
  {
    LowerKeepsDots(filename);
    if '.' in filename {
      var parts := RSplitOnce(filename, '.');
      var head, ext := parts[0], parts[1];
      LowerKeepsDots(ext);
      LowerAppend(head, "." + ext);
      LowerAppend(".", ext);
      assert Lower(".") == ".";
      assert filename == head + ("." + ext);
      assert Lower(filename) == Lower(head) + "." + Lower(ext);
      AllowedFileLastDot(head, ext);
      AllowedFileLastDot(Lower(head), Lower(ext));
      LowerIdempotent(ext);
    }
  }

  // Worked cases: the last dot decides, case does not matter, and an empty
  // extension or a name that is only an extension behave as the rule says.

  lemma AllowedFileExampleNestedDots()
    ensures AllowedFile("a.tar.PNG")
  {
    AllowedFileLastDot("a.tar", "PNG");
    assert "a.tar" + "." + "PNG" == "a.tar.PNG";
    assert Lower("PNG") == "png";
  }

  lemma AllowedFileExampleDoubleExtension()
    ensures !AllowedFile("scan.pdf.exe")
  {
    AllowedFileLastDot("scan.pdf", "exe");
    assert "scan.pdf" + "." + "exe" == "scan.pdf.exe";
    assert Lower("exe") == "exe";
  }

  lemma AllowedFileExampleEmptyExtension()
    ensures !AllowedFile("file.")
  {
    AllowedFileLastDot("file", "");
    assert "file" + "." + "" == "file.";
  }

  lemma AllowedFileExampleOnlyExtension()
    ensures AllowedFile(".png") && !AllowedFile("png")
  {
    AllowedFileNoDot("png");
    AllowedFileLastDot("", "png");
    assert "" + "." + "png" == ".png";
    assert Lower("png") == "png";
  }
}
