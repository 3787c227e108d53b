/**
  The server's choice of storage folder for an uploaded file, from the file's
  extension: a fixed table for sixteen known extensions, and otherwise a
  folder named after the extension itself.
 */
module Categories {
  import opened Strings
  import opened Paths

  /** The folder used when the extension leaves nothing to name a folder after. */
  const Others: string := "others"

  /** EXTENSION_MAP: lower-case extension, with its dot, to folder name. */
  const ExtensionMap: map<string, string> := map[
    ".doc" := "word",
    ".docx" := "word",
    ".pdf" := "pdf",
    ".xls" := "excel",
    ".xlsx" := "excel",
    ".ppt" := "powerpoint",
    ".pptx" := "powerpoint",
    ".mp3" := "audio",
    ".wav" := "audio",
    ".mp4" := "video",
    ".mov" := "video",
    ".avi" := "video",
    ".png" := "images",
    ".jpg" := "images",
    ".jpeg" := "images",
    ".txt" := "text"
  ]

  /** A name that is usable as one folder directly under the storage root:
      non-empty, not hidden (so neither "." nor ".."), and one path component. */
  predicate IsFolderName(s: string) {
    s != [] && s[0] != ExtSep && Sep !in s
  }

  /** Every key of the table is an extension: one dot, then a non-dot. */
  lemma TableKeysDotted()
    ensures forall k :: k in ExtensionMap ==> |k| > 1 && k[0] == ExtSep && k[1] != ExtSep
  {
  }

  /** Every key of the table is in lower case. */
  lemma TableKeysLower()
    ensures forall k :: k in ExtensionMap ==> IsLower(k)
  {
  }

  /** Every value of the table is a folder name. */
  lemma TableValuesFolderNames()
    ensures forall k :: k in ExtensionMap ==> IsFolderName(ExtensionMap[k])
  {
  }

  /** Every value of the table is in lower case. */
  lemma TableValuesLower()
    ensures forall k :: k in ExtensionMap ==> IsLower(ExtensionMap[k])
  {
  }

  /** The table does not send any extension to "others", and ".others" is not a key. */
  lemma TableAvoidsOthers()
    ensures forall k :: k in ExtensionMap ==> ExtensionMap[k] != Others
    ensures [ExtSep] + Others !in ExtensionMap
  {
  }

  /** get_category_for_extension. */
  function CategoryForExtension(ext: string): (category: string)
    ensures category != [] && category[0] != ExtSep
    ensures IsLower(category)
    ensures Sep !in ext ==> Sep !in category
  {
    TableValuesFolderNames();
    TableValuesLower();
    var e := Lower(ext);
    if e in ExtensionMap then
      ExtensionMap[e]
    else
      var stripped := StripLeading(e, ExtSep);
      LowerIsLower(ext);
      LowerKeepsNonLetter(ext, Sep);
      if stripped != [] then stripped else Others
  }

  /** Each extension of the table, written in lower case, gets its folder. */
  lemma TableHit(ext: string)
    requires ext in ExtensionMap
    ensures CategoryForExtension(ext) == ExtensionMap[ext]
  {
    TableKeysLower();
    LowerOfLower(ext);
  }

  /** Only the letters of the extension matter, not their case. */
  lemma CaseInsensitive(a: string, b: string)
    requires Lower(a) == Lower(b)
    ensures CategoryForExtension(a) == CategoryForExtension(b)
  {
  }

  lemma CategoryOfLower(ext: string)
    ensures CategoryForExtension(ext) == CategoryForExtension(Lower(ext))
  {
    LowerIdempotent(ext);
    CaseInsensitive(ext, Lower(ext));
  }

  /** Outside the table, the folder is the lower-cased extension once its
      leading dots are gone: it is a suffix of Lower(ext), what comes before it
      is all dots, and it does not itself start with a dot. */
  lemma UnknownExtension(ext: string)
    requires Lower(ext) !in ExtensionMap
    requires exists i :: 0 <= i < |ext| && ext[i] != ExtSep
    ensures var e, category := Lower(ext), CategoryForExtension(ext);
      && |category| <= |e|
      && category == e[|e| - |category|..]
      && (forall i :: 0 <= i < |e| - |category| ==> e[i] == ExtSep)
      && category == Lower(StripLeading(ext, ExtSep))
  {
    var e := Lower(ext);
    LowerKeepsNonLetter(ext, ExtSep);
    StripLeadingEmpty(e, ExtSep);
    StripLeadingLower(ext, ExtSep);
  }

  /** An empty extension, or one made only of dots, gets the "others" folder. */
  lemma OnlyDotsGoToOthers(ext: string)
    requires forall i :: 0 <= i < |ext| ==> ext[i] == ExtSep
    ensures CategoryForExtension(ext) == Others
  {
    TableKeysDotted();
    LowerKeepsNonLetter(ext, ExtSep);
    StripLeadingEmpty(Lower(ext), ExtSep);
  }

  /** "others" is chosen exactly for extensions that are empty or all dots,
      and for those that name it (".others", "others", "..OTHERS", ...). */
  lemma OthersExactly(ext: string)
    ensures CategoryForExtension(ext) == Others <==>
      (forall i :: 0 <= i < |ext| ==> ext[i] == ExtSep) || Lower(StripLeading(ext, ExtSep)) == Others
  {
    if forall i :: 0 <= i < |ext| ==> ext[i] == ExtSep {
      OnlyDotsGoToOthers(ext);
    } else if Lower(ext) in ExtensionMap {
      TableExtensionNotOthers(ext);
    } else {
      UnknownExtension(ext);
    }
  }

  /** An extension of the table neither goes to "others" nor names it. */
  lemma TableExtensionNotOthers(ext: string)
    requires Lower(ext) in ExtensionMap
    ensures CategoryForExtension(ext) != Others
    ensures Lower(StripLeading(ext, ExtSep)) != Others
  {
    var e := Lower(ext);
    TableKeysDotted();
    TableAvoidsOthers();
    StripLeadingLower(ext, ExtSep);
    StripLeadingUnique(e, ExtSep, 1);
    assert e == [ExtSep] + e[1..];
  }

  // Examples, one per lemma.

  lemma UpperCaseTableExtension()
    ensures CategoryForExtension(".DOCX") == "word"
  {
    assert Lower(".DOCX") == ".docx";
  }

  lemma MixedCaseTableExtension()
    ensures CategoryForExtension(".JpEg") == "images"
  {
    assert Lower(".JpEg") == ".jpeg";
  }

  lemma UpperCasePdf()
    ensures CategoryForExtension(".PDF") == "pdf"
  {
    assert Lower(".PDF") == ".pdf";
  }

  lemma UnknownUpperCase()
    ensures CategoryForExtension(".XYZ") == "xyz"
  {
    assert Lower(".XYZ") == ".xyz";
    StripLeadingUnique(".xyz", ExtSep, 1);
  }

  lemma UnknownWithoutDot()
    ensures CategoryForExtension("Md") == "md"
  {
    assert Lower("Md") == "md";
    StripLeadingUnique("md", ExtSep, 0);
  }

  lemma EmptyExtension()
    ensures CategoryForExtension("") == Others
  {
    OnlyDotsGoToOthers("");
  }

  lemma DotsOnlyExtension()
    ensures CategoryForExtension("...") == Others
  {
    OnlyDotsGoToOthers("...");
  }
}
