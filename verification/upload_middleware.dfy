/** The multer configuration: the file filter that decides which uploads
    are accepted and the name each accepted file gets on disk. */
module UploadMiddleware {
  import opened Wrappers
  import opened Strings
  import opened NodePath
  import opened Models

  const FilterError := "Only PDF and DOCX files are allowed"

  datatype FilterDecision = Accept | Reject(message: string)

  /** The regular expression /pdf|docx/ under `test`: not anchored, so it
      tries both alternatives at every starting position from `i` on. */
  function SearchFrom(s: string, i: nat): (found: bool)
    requires i <= |s|
    ensures found <==> exists j :: i <= j <= |s| && (OccursAt(s, "pdf", j) || OccursAt(s, "docx", j))
    decreases |s| - i
  {
    if i == |s| then false
    else OccursAt(s, "pdf", i) || OccursAt(s, "docx", i) || SearchFrom(s, i + 1)
  }

  /** `/pdf|docx/.test(s)`: a substring test, not an extension match. */
  function AllowedTypesTest(s: string): (found: bool)
    ensures found <==> Contains(s, "pdf") || Contains(s, "docx")
  {
    SearchFrom(s, 0)
  }

  /** The lower-cased extension the filter and the controller work with. */
  function LowerExt(name: string): string
  {
    Lower(Extname(name))
  }

  /** The multer `fileFilter`: accept exactly the files whose lower-cased
      extension contains "pdf" or "docx"; reject the rest with one fixed
      error. */
  function FileFilter(file: UploadedFile): (r: FilterDecision)
    ensures r.Accept? <==> Contains(LowerExt(file.originalName), "pdf") || Contains(LowerExt(file.originalName), "docx")
    ensures r.Reject? ==> r.message == FilterError
  {
    if AllowedTypesTest(LowerExt(file.originalName)) then Accept else Reject(FilterError)
  }

  /** Only the original name matters: path, size and MIME type do not. */
  lemma FilterIgnoresMetadata(f1: UploadedFile, f2: UploadedFile)
    requires f1.originalName == f2.originalName
    ensures FileFilter(f1) == FileFilter(f2)
  {
  }

  /** The filter is case-insensitive: names that agree once lower-cased get
      the same decision ("a.PDF" like "a.pdf"). */
  lemma FilterCaseInsensitive(f1: UploadedFile, f2: UploadedFile)
    requires Lower(f1.originalName) == Lower(f2.originalName)
    ensures FileFilter(f1) == FileFilter(f2)
  {
    ExtnameLower(f1.originalName);
    ExtnameLower(f2.originalName);
  }

  /** A dot cannot start an occurrence of a dot-free pattern, so prefixing
      one changes no substring answer. */
  lemma ContainsAfterDot(x: string, t: string)
    requires |t| > 0 && t[0] != '.'
    ensures Contains("." + x, t) <==> Contains(x, t)
  {
    var s := "." + x;
    if Contains(s, t) {
      var i :| 0 <= i <= |s| && OccursAt(s, t, i);
      assert i > 0;
      assert s[i..i + |t|] == x[i - 1..i - 1 + |t|];
      assert OccursAt(x, t, i - 1);
    }
    if Contains(x, t) {
      var i :| 0 <= i <= |x| && OccursAt(x, t, i);
      assert s[i + 1..i + 1 + |t|] == x[i..i + |t|];
      assert OccursAt(s, t, i + 1);
    }
  }

  /** For a slash-free name `stem.suffix` with a dot-free suffix, the
      decision is whether the lower-cased suffix contains "pdf" or "docx"
      anywhere: ".pdfx" and ".xdocx" pass, ".doc" and ".txt" do not. For
      "..", which has no extension, both sides are false. */
  lemma FilterOnStemAndSuffix(f: UploadedFile, stem: string, suffix: string)
    requires f.originalName == stem + "." + suffix
    requires |stem| > 0
    requires forall i :: 0 <= i < |stem| ==> stem[i] != '/'
    requires forall i :: 0 <= i < |suffix| ==> suffix[i] != '/' && suffix[i] != '.'
    ensures FileFilter(f).Accept? <==> Contains(Lower(suffix), "pdf") || Contains(Lower(suffix), "docx")
  {
    if stem == "." && suffix == "" {
      DotDotRejected(f);
      assert !OccursAt("", "pdf", 0) && !OccursAt("", "docx", 0);
      return;
    }
    ExtnameOfStemAndSuffix(stem, suffix);
    assert Lower("." + suffix) == "." + Lower(suffix);
    ContainsAfterDot(Lower(suffix), "pdf");
    ContainsAfterDot(Lower(suffix), "docx");
  }

  /** ".." has no extension, so it is rejected. */
  lemma DotDotRejected(f: UploadedFile)
    requires f.originalName == ".."
    ensures FileFilter(f) == Reject(FilterError)
  {
    ExtnameNonEmptyIff(f.originalName);
    assert Basename(f.originalName) == "..";
    assert LowerExt(f.originalName) == "";
    assert !OccursAt("", "pdf", 0) && !OccursAt("", "docx", 0);
  }

  /** A name with no dot has the empty extension and is rejected. */
  lemma FilterRejectsNameWithoutDot(f: UploadedFile)
    requires forall i :: 0 <= i < |f.originalName| ==> f.originalName[i] != '.'
    ensures FileFilter(f) == Reject(FilterError)
  {
    ExtnameWithoutDot(f.originalName);
    assert LowerExt(f.originalName) == "";
    assert !OccursAt("", "pdf", 0) && !OccursAt("", "docx", 0);
  }

  /** Upper case passes like lower case: "a.PDF" is accepted. */
  lemma UpperCasePdfAccepted(f: UploadedFile)
    requires f.originalName == "a.PDF"
    ensures FileFilter(f) == Accept
  {
    assert Contains(Lower("PDF"), "pdf") by {
      assert Lower("PDF") == "pdf";
      assert OccursAt("pdf", "pdf", 0);
    }
    assert "a.PDF" == "a" + "." + "PDF";
    FilterOnStemAndSuffix(f, "a", "PDF");
  }

  /** The test is not anchored: "notes.pdfx" is accepted. */
  lemma PdfxAccepted(f: UploadedFile)
    requires f.originalName == "notes.pdfx"
    ensures FileFilter(f) == Accept
  {
    assert Contains(Lower("pdfx"), "pdf") by {
      LowerOfLowerCase("pdfx");
      assert "pdfx"[0..3] == "pdf";
      assert OccursAt("pdfx", "pdf", 0);
    }
    assert "notes.pdfx" == "notes" + "." + "pdfx";
    FilterOnStemAndSuffix(f, "notes", "pdfx");
  }

  /** The test is not anchored: "x.xdocx" is accepted. */
  lemma XdocxAccepted(f: UploadedFile)
    requires f.originalName == "x.xdocx"
    ensures FileFilter(f) == Accept
  {
    assert Contains(Lower("xdocx"), "docx") by {
      LowerOfLowerCase("xdocx");
      assert "xdocx"[1..5] == "docx";
      assert OccursAt("xdocx", "docx", 1);
    }
    assert "x.xdocx" == "x" + "." + "xdocx";
    FilterOnStemAndSuffix(f, "x", "xdocx");
  }

  /** A three-letter suffix other than "pdf" contains neither pattern. */
  lemma ShortSuffixRejected(f: UploadedFile, stem: string, suffix: string)
    requires f.originalName == stem + "." + suffix
    requires |stem| > 0
    requires forall i :: 0 <= i < |stem| ==> stem[i] != '/'
    requires |suffix| == 3 && forall i :: 0 <= i < 3 ==> 'a' <= suffix[i] <= 'z'
    requires suffix != "pdf"
    ensures FileFilter(f) == Reject(FilterError)
  {
    FilterOnStemAndSuffix(f, stem, suffix);
    assert Lower(suffix) == suffix;
    assert forall i :: 0 <= i <= 3 ==> !OccursAt(suffix, "pdf", i);
    assert forall i :: 0 <= i <= 3 ==> !OccursAt(suffix, "docx", i);
  }

  /** ".doc" is refused. */
  lemma DocRejected(f: UploadedFile)
    requires f.originalName == "a.doc"
    ensures FileFilter(f) == Reject(FilterError)
  {
    assert "a.doc" == "a" + "." + "doc";
    ShortSuffixRejected(f, "a", "doc");
  }

  // ---------------------------------------------------------------------
  // The disk-storage file name.

  /** The multer `diskStorage` file name: the millisecond timestamp in
      decimal, a dash, then the client's name unchanged. */
  function DiskFilename(now: nat, originalName: string): (f: string)
    ensures |f| > |originalName| && f[|f| - |originalName|..] == originalName
    ensures exists k :: 0 < k < |f| && f[k] == '-' && IsDigits(f[..k])
  {
    var stamp := NatToDecimal(now);
    var f := stamp + "-" + originalName;
    assert f[..|stamp|] == stamp;
    f
  }

  /** Splits a stored file name at its first dash into the timestamp and the
      original name; None when the part before the dash is not a number. */
  function ParseDiskFilename(f: string): Option<(nat, string)>
  {
    match IndexOf(f, '-', 0)
    case None => None
    case Some(k) =>
      if k > 0 && IsDigits(f[..k]) then Some((DecimalValue(f[..k]), f[k + 1..])) else None
  }

  /** The timestamp contains no dash, so the stored name splits back into
      exactly the timestamp and the original name, whatever dashes the
      original name contains. */
  lemma DiskFilenameRoundTrip(now: nat, originalName: string)
    ensures ParseDiskFilename(DiskFilename(now, originalName)) == Some((now, originalName))
  {
    var stamp := NatToDecimal(now);
    var f := DiskFilename(now, originalName);
    assert forall j :: 0 <= j < |stamp| ==> f[j] == stamp[j] && f[j] != '-';
    assert f[|stamp|] == '-';
    assert IndexOf(f, '-', 0) == Some(|stamp|);
    assert f[..|stamp|] == stamp;
    assert f[|stamp| + 1..] == originalName;
    DecimalRoundTrip(now);
  }
}
