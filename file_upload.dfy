/** `CustomFileUpload` (assets/custom-file-upload.js): the label shown for
    the chosen files and the check of each file against the input's
    `accept` attribute. */
module FileUpload {
  import opened Optional
  import opened Text

  /** A selected file: its `name` and its MIME `type` (`""` when the browser
      does not know it). */
  datatype File = File(name: string, mimeType: string)

  /** `acceptTypes.split(',').map(type => type.trim())` */
  function AcceptList(acceptTypes: string): (r: seq<string>)
    ensures |r| == 1 + multiset(acceptTypes)[',']
  {
    SplitOnCount(acceptTypes, ',');
    var pieces := SplitOn(acceptTypes, ',');
    seq(|pieces|, k requires 0 <= k < |pieces| => Trim(pieces[k]))
  }

  /** Each accept entry is the trimmed text between two commas (or an end of
      the attribute): it holds no comma and does not begin or end with
      whitespace. */
  lemma AcceptListShape(acceptTypes: string)
    ensures var r := AcceptList(acceptTypes);
      (forall k :: 0 <= k < |r| ==> ',' !in r[k])
      && (forall k :: 0 <= k < |r| ==> r[k] == [] || (!IsJsWhitespace(r[k][0]) && !IsJsWhitespace(r[k][|r[k]| - 1])))
      && forall k :: 0 <= k < |r| ==> r[k] == Trim(SplitOn(acceptTypes, ',')[k])
  {
    var pieces := SplitOn(acceptTypes, ',');
    var r := AcceptList(acceptTypes);
    forall k | 0 <= k < |r|
      ensures ',' !in r[k]
      ensures r[k] == [] || (!IsJsWhitespace(r[k][0]) && !IsJsWhitespace(r[k][|r[k]| - 1]))
    {
      assert r[k] == Trim(pieces[k]);
      TrimKeepsAbsent(pieces[k], ',');
    }
  }

  /** `fileName.split('.').pop().toLowerCase()` */
  function Extension(fileName: string): (ext: string)
    ensures |ext| <= |fileName|
    ensures '.' !in ext
  {
    var pieces := SplitOn(fileName, '.');
    SplitLast(fileName, '.');
    LowerKeepsAbsent(pieces[|pieces| - 1], '.');
    Lower(pieces[|pieces| - 1])
  }

  /** The extension is the lower-cased text after the last dot, or the whole
      name lower-cased when there is no dot. */
  lemma ExtensionIsAfterLastDot(fileName: string)
    ensures var ext := Extension(fileName);
      |ext| <= |fileName| && ext == Lower(fileName[|fileName| - |ext|..])
      && '.' !in fileName[|fileName| - |ext|..]
      && (|ext| < |fileName| ==> fileName[|fileName| - |ext| - 1] == '.')
  {
    var pieces := SplitOn(fileName, '.');
    var last := pieces[|pieces| - 1];
    SplitLast(fileName, '.');
    assert Extension(fileName) == Lower(last);
    assert '.' !in last;
  }

  lemma ExtensionWithoutDot(fileName: string)
    requires '.' !in fileName
    ensures Extension(fileName) == Lower(fileName)
  {
    ExtensionIsAfterLastDot(fileName);
  }

  /** `acceptedType.split('/')[0]` */
  function BaseType(acceptedType: string): (base: string)
    ensures |base| <= |acceptedType| && base == acceptedType[..|base|]
    ensures '/' !in base
    ensures |base| < |acceptedType| ==> acceptedType[|base|] == '/'
  {
    SplitFirst(acceptedType, '/');
    SplitOn(acceptedType, '/')[0]
  }

  /** One accept entry against one file, in the order the source tests:
      an extension entry first, then a wildcard, then the exact MIME type. */
  predicate EntryMatches(acceptedType: string, fileType: string, fileExtension: string)
    ensures EntryMatches(acceptedType, fileType, fileExtension) && !StartsWith(acceptedType, ".") && '*' in acceptedType
      ==> |BaseType(acceptedType)| < |fileType| && fileType[|BaseType(acceptedType)|] == '/'
  {
    if StartsWith(acceptedType, ".") then fileExtension == acceptedType[1..]
    else if '*' in acceptedType then
      var prefix := BaseType(acceptedType) + "/";
      assert StartsWith(fileType, prefix) ==> fileType[|prefix| - 1] == fileType[..|prefix|][|prefix| - 1];
      StartsWith(fileType, prefix)
    else fileType == acceptedType
  }

  /** An entry starting with `.` compares the extension with the rest of the
      entry, even when that rest holds a `*`. */
  lemma ExtensionEntryRule(acceptedType: string, fileType: string, fileExtension: string)
    requires |acceptedType| > 0 && acceptedType[0] == '.'
    ensures EntryMatches(acceptedType, fileType, fileExtension) <==> fileExtension == acceptedType[1..]
  {
  }

  /** A wildcard entry matches exactly the MIME types that begin with the
      entry's text before its first `/` (here `acceptedType[..k]`),
      followed by `/`. */
  lemma WildcardEntryRule(acceptedType: string, fileType: string, fileExtension: string, k: nat)
    requires !StartsWith(acceptedType, ".") && '*' in acceptedType
    requires k <= |acceptedType| && '/' !in acceptedType[..k]
    requires k == |acceptedType| || acceptedType[k] == '/'
    ensures EntryMatches(acceptedType, fileType, fileExtension)
        <==> k < |fileType| && fileType[..k] == acceptedType[..k] && fileType[k] == '/'
  {
    var base := BaseType(acceptedType);
    assert |base| == k;
    assert base == acceptedType[..k];
    if StartsWith(fileType, base + "/") {
      assert fileType[k] == (base + "/")[k];
    }
    if k < |fileType| && fileType[..k] == acceptedType[..k] && fileType[k] == '/' {
      assert fileType[..k + 1] == fileType[..k] + [fileType[k]];
    }
  }

  /** Any other entry is a case-sensitive comparison with the MIME type. */
  lemma ExactEntryRule(acceptedType: string, fileType: string, fileExtension: string)
    requires !StartsWith(acceptedType, ".") && '*' !in acceptedType
    ensures EntryMatches(acceptedType, fileType, fileExtension) <==> fileType == acceptedType
  {
  }

  /** Accept entries are not lower-cased: an extension entry with an
      upper-case ASCII letter never matches any file. */
  lemma UpperCaseExtensionNeverMatches(acceptedType: string, file: File, k: nat)
    requires StartsWith(acceptedType, ".") && 1 <= k < |acceptedType| && 'A' <= acceptedType[k] <= 'Z'
    ensures !EntryMatches(acceptedType, file.mimeType, Extension(file.name))
  {
  }

  /** The extension is the last dot-segment only: an entry such as
      `.tar.gz` never matches any file. */
  lemma DottedExtensionNeverMatches(acceptedType: string, file: File, k: nat)
    requires StartsWith(acceptedType, ".") && 1 <= k < |acceptedType| && acceptedType[k] == '.'
    ensures !EntryMatches(acceptedType, file.mimeType, Extension(file.name))
  {
    assert acceptedType[1..][k - 1] == '.';
  }

  /** Whether some entry of `acceptedTypes` matches, tried front to back. */
  predicate AnyEntryMatches(acceptedTypes: seq<string>, fileType: string, fileExtension: string) {
    |acceptedTypes| > 0
    && (EntryMatches(acceptedTypes[0], fileType, fileExtension)
        || AnyEntryMatches(acceptedTypes[1..], fileType, fileExtension))
  }

  /** A file is valid when some accept entry matches it. */
  predicate Accepts(acceptedTypes: seq<string>, file: File)
    ensures Accepts(acceptedTypes, file)
        <==> exists k :: 0 <= k < |acceptedTypes| && EntryMatches(acceptedTypes[k], file.mimeType, Extension(file.name))
  {
    AnyEntryMatchesIff(acceptedTypes, file.mimeType, Extension(file.name));
    AnyEntryMatches(acceptedTypes, file.mimeType, Extension(file.name))
  }

  lemma {:induction false} AnyEntryMatchesIff(acceptedTypes: seq<string>, fileType: string, fileExtension: string)
    ensures AnyEntryMatches(acceptedTypes, fileType, fileExtension)
        <==> exists k :: 0 <= k < |acceptedTypes| && EntryMatches(acceptedTypes[k], fileType, fileExtension)
  {
    if |acceptedTypes| > 0 {
      var rest := acceptedTypes[1..];
      AnyEntryMatchesIff(rest, fileType, fileExtension);
      if exists k :: 0 <= k < |acceptedTypes| && EntryMatches(acceptedTypes[k], fileType, fileExtension) {
        var k :| 0 <= k < |acceptedTypes| && EntryMatches(acceptedTypes[k], fileType, fileExtension);
        if k > 0 {
          assert rest[k - 1] == acceptedTypes[k];
        }
      }
      if AnyEntryMatches(rest, fileType, fileExtension) {
        var k :| 0 <= k < |rest| && EntryMatches(rest[k], fileType, fileExtension);
        assert acceptedTypes[k + 1] == rest[k];
      }
    }
  }

  /** `Accepts` for one accept list, as a test on files. */
  function AcceptsFor(acceptedTypes: seq<string>): File -> bool {
    file => Accepts(acceptedTypes, file)
  }

  /** The files that fail `accepts`, in input order. */
  function Failing(files: seq<File>, accepts: File -> bool): (r: seq<File>)
    ensures |r| <= |files|
  {
    if files == [] then []
    else
      var last := files[|files| - 1];
      Failing(files[..|files| - 1], accepts) + (if accepts(last) then [] else [last])
  }

  /** The invalid files, in input order. */
  function Rejected(files: seq<File>, acceptedTypes: seq<string>): seq<File> {
    Failing(files, AcceptsFor(acceptedTypes))
  }

  /** Exactly the files that fail the test are kept. */
  lemma {:induction false} FailingMembers(files: seq<File>, accepts: File -> bool)
    ensures forall f :: f in Failing(files, accepts) <==> f in files && !accepts(f)
  {
    if files != [] {
      var init := files[..|files| - 1];
      FailingMembers(init, accepts);
      assert files == init + [files[|files| - 1]];
    }
  }

  /** Failing keeps the input order: it distributes over concatenation. */
  lemma {:induction false} FailingDistributes(a: seq<File>, b: seq<File>, accepts: File -> bool)
    ensures Failing(a + b, accepts) == Failing(a, accepts) + Failing(b, accepts)
  {
    if b == [] {
      assert a + b == a;
    } else {
      var init := b[..|b| - 1];
      FailingDistributes(a, init, accepts);
      assert (a + b)[..|a + b| - 1] == a + init;
      assert (a + b)[|a + b| - 1] == b[|b| - 1];
    }
  }

  /** The rejected files are exactly the invalid ones, in input order. */
  lemma RejectedExactly(files: seq<File>, more: seq<File>, acceptedTypes: seq<string>)
    ensures forall f :: f in Rejected(files, acceptedTypes) <==> f in files && !Accepts(acceptedTypes, f)
    ensures Rejected(files + more, acceptedTypes) == Rejected(files, acceptedTypes) + Rejected(more, acceptedTypes)
  {
    FailingMembers(files, AcceptsFor(acceptedTypes));
    FailingDistributes(files, more, AcceptsFor(acceptedTypes));
  }

  lemma RejectedStep(files: seq<File>, n: nat, acceptedTypes: seq<string>)
    requires n < |files|
    ensures Rejected(files[..n + 1], acceptedTypes)
         == Rejected(files[..n], acceptedTypes) + (if Accepts(acceptedTypes, files[n]) then [] else [files[n]])
  {
    assert files[..n + 1][..n] == files[..n];
  }

  /** The warning logged for a rejected file. */
  function Warning(fileName: string): (w: string)
    ensures |w| == |fileName| + 32 && w[5..|w| - 27] == fileName
    ensures w[..5] == "File " && w[|w| - 27..] == " is not of an accepted type"
  {
    "File " + fileName + " is not of an accepted type"
  }

  /** The warnings for the rejected files, in the same order. */
  function Warnings(rejected: seq<File>): (w: seq<string>)
    ensures |w| == |rejected|
  {
    if rejected == [] then []
    else Warnings(rejected[..|rejected| - 1]) + [Warning(rejected[|rejected| - 1].name)]
  }

  /** One warning per rejected file, naming it, in the same order. */
  lemma {:induction false} WarningsAt(rejected: seq<File>, k: nat)
    requires k < |rejected|
    ensures Warnings(rejected)[k] == Warning(rejected[k].name)
  {
    var init := rejected[..|rejected| - 1];
    if k < |init| {
      WarningsAt(init, k);
    }
  }

  /** Checking one more file adds its warning exactly when it is invalid. */
  lemma WarningsStep(files: seq<File>, n: nat, acceptedTypes: seq<string>, warnings: seq<string>, isValid: bool)
    requires n < |files| && warnings == Warnings(Rejected(files[..n], acceptedTypes))
    requires isValid == Accepts(acceptedTypes, files[n])
    ensures isValid ==> warnings == Warnings(Rejected(files[..n + 1], acceptedTypes))
    ensures !isValid ==> warnings + [Warning(files[n].name)] == Warnings(Rejected(files[..n + 1], acceptedTypes))
  {
    var before := Rejected(files[..n], acceptedTypes);
    RejectedStep(files, n, acceptedTypes);
    if isValid {
      assert before + [] == before;
    } else {
      assert (before + [files[n]])[..|before|] == before;
    }
  }

  /** The inner loop of `validateFileType`: scan the accept list until an
      entry matches the file, stopping at the first match. */
  method IsValidFile(acceptedTypes: seq<string>, file: File) returns (isValid: bool)
    ensures isValid == Accepts(acceptedTypes, file)
  {
    var fileExtension := Extension(file.name);
    isValid := false;
    var i := 0;
    while i < |acceptedTypes|
      invariant 0 <= i <= |acceptedTypes|
      invariant !isValid
      invariant Accepts(acceptedTypes, file) == AnyEntryMatches(acceptedTypes[i..], file.mimeType, fileExtension)
    {
      assert acceptedTypes[i..][1..] == acceptedTypes[i + 1..];
      if EntryMatches(acceptedTypes[i], file.mimeType, fileExtension) {
        isValid := true;
        break;
      }
      i := i + 1;
    }
  }

  /** `validateFileType`: every file is checked against the accept list; the
      warnings are those of the invalid files, one each, in input order. */
  method ValidateFileType(files: seq<File>, acceptTypes: string) returns (warnings: seq<string>)
    ensures warnings == Warnings(Rejected(files, AcceptList(acceptTypes)))
  {
    var acceptedTypes := AcceptList(acceptTypes);
    warnings := [];
    var n := 0;
    while n < |files|
      invariant 0 <= n <= |files|
      invariant warnings == Warnings(Rejected(files[..n], acceptedTypes))
    {
      var file := files[n];
      var isValid := IsValidFile(acceptedTypes, file);
      ghost var done := files[..n + 1];
      WarningsStep(files, n, acceptedTypes, warnings, isValid);
      if !isValid {
        warnings := warnings + [Warning(file.name)];
      }
      assert warnings == Warnings(Rejected(done, acceptedTypes));
      n := n + 1;
    }
    assert files[..n] == files;
  }

  /** The text `handleFileSelection` writes into the file-name display:
      a fixed text for no file, the name for one file, and otherwise the
      count in decimal followed by " files", from which the count can be
      read back. */
  function FileNameText(files: seq<File>): (shown: string)
    ensures |files| == 0 ==> shown == "No file chosen"
    ensures |files| == 1 ==> shown == files[0].name
    ensures |files| >= 2 ==>
              |shown| > 6 && shown[|shown| - 6..] == " files"
              && AllDigits(shown[..|shown| - 6]) && DecimalValue(shown[..|shown| - 6]) == |files|
              && shown[0] != '0'
  {
    if |files| == 0 then "No file chosen"
    else if |files| == 1 then files[0].name
    else
      var count := NatToDecimal(|files|);
      DecimalRoundTrip(|files|);
      assert (count + " files")[..|count|] == count;
      count + " files"
  }

  /** `handleFileSelection`: the label, whether the error message is hidden
      (`display = 'none'`; otherwise it is left as it was) and the warnings
      of the validation, which runs only when an `accept` attribute is
      present. */
  method HandleFileSelection(files: seq<File>, accept: Option<string>)
    returns (fileNameText: string, hideError: bool, warnings: seq<string>)
    ensures fileNameText == FileNameText(files)
    ensures hideError <==> |files| > 0
    ensures accept.None? ==> warnings == []
    ensures accept.Some? ==> warnings == Warnings(Rejected(files, AcceptList(accept.value)))
  {
    if |files| == 0 {
      fileNameText := "No file chosen";
      hideError := false;
    } else if |files| == 1 {
      fileNameText := files[0].name;
      hideError := true;
    } else {
      fileNameText := NatToDecimal(|files|) + " files";
      hideError := true;
    }
    warnings := [];
    if accept.Some? {
      warnings := ValidateFileType(files, accept.value);
    }
  }
}
