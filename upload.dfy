/**
  The decisions the upload endpoint makes: which validation failure a request
  meets first, which folder the file goes to, and what the success response
  reports. Sanitising the name and writing the file are outside the model
  and come in as parameters.
 */
module Upload {
  import opened Strings
  import opened Paths
  import opened Categories

  datatype Option<T> = None | Some(value: T)

  /** An uploaded file as the handler sees it: the name the client gave it. */
  datatype FileStorage = FileStorage(filename: string)

  /** The request's uploaded files, by form field name. */
  datatype Request = Request(files: map<string, FileStorage>)

  const FileField: string := "file"
  const NoFileMessage: string := "No file found"
  const EmptyFilenameMessage: string := "Empty filename"
  const UploadedMessage: string := "File uploaded successfully"
  const SaveErrorPrefix: string := "Error saving file: "

  const StatusOk: int := 200
  const StatusBadRequest: int := 400
  const StatusServerError: int := 500

  /** The "file" object of a success response, without size and timestamps. */
  datatype StoredFile = StoredFile(name: string, category: string, relativePath: string)

  datatype UploadResponse =
    | Failed(message: string, status: int)
    | Uploaded(file: StoredFile)
  {
    /** The response's "success" flag. */
    function Success(): bool {
      Uploaded?
    }

    function Message(): string {
      if Uploaded? then UploadedMessage else message
    }

    function Status(): int {
      if Uploaded? then StatusOk else status
    }
  }

  /** The folder a (sanitised) file name is stored under, from its extension. */
  function FolderForFile(name: string): (folder: string)
    ensures IsFolderName(folder)
  {
    SplitExtSound(name);
    CategoryForExtension(SplitExt(name).1)
  }

  /** upload_file. `secureFilename` is the name sanitiser; `save(folder, name)`
      stores the file as `name` in `folder` and gives the text of the error it
      raised, if any. */
  function UploadFile(request: Request, secureFilename: string -> string,
                      save: (string, string) -> Option<string>): (response: UploadResponse)
    ensures FileField !in request.files ==> response == Failed(NoFileMessage, StatusBadRequest)
    ensures FileField in request.files && request.files[FileField].filename == [] ==>
      response == Failed(EmptyFilenameMessage, StatusBadRequest)
    ensures response.Uploaded? <==>
      && FileField in request.files
      && request.files[FileField].filename != []
      && var name := secureFilename(request.files[FileField].filename);
         save(FolderForFile(name), name).None?
    ensures FileField in request.files && request.files[FileField].filename != [] ==>
      var name := secureFilename(request.files[FileField].filename);
      save(FolderForFile(name), name).Some? ==>
        response == Failed(SaveErrorPrefix + save(FolderForFile(name), name).value, StatusServerError)
    ensures response.Uploaded? ==>
      var name := secureFilename(request.files[FileField].filename);
      && response.file.name == name
      && response.file.category == FolderForFile(name)
      && response.file.relativePath == response.file.category + [Sep] + name
  {
    if FileField !in request.files then
      Failed(NoFileMessage, StatusBadRequest)
    else
      var file := request.files[FileField];
      if file.filename == [] then
        Failed(EmptyFilenameMessage, StatusBadRequest)
      else
        var filename := secureFilename(file.filename);
        var category := FolderForFile(filename);
        match save(category, filename)
        case Some(error) => Failed(SaveErrorPrefix + error, StatusServerError)
        case None => Uploaded(StoredFile(filename, category, category + [Sep] + filename))
  }

  /** The response's success flag, status and message agree, and each failure
      carries the status and message of its cause. */
  lemma ResponseConsistent(request: Request, secureFilename: string -> string,
                           save: (string, string) -> Option<string>)
    ensures var response := UploadFile(request, secureFilename, save);
      && (response.Success() <==> response.Status() == StatusOk)
      && (response.Success() ==> response.Message() == UploadedMessage)
      && (response.Status() == StatusBadRequest <==>
            FileField !in request.files || request.files[FileField].filename == [])
      && (response.Status() == StatusServerError <==>
            && FileField in request.files && request.files[FileField].filename != []
            && var name := secureFilename(request.files[FileField].filename);
               save(FolderForFile(name), name).Some?)
      && (response.Status() == StatusServerError ==>
            var name := secureFilename(request.files[FileField].filename);
            response.Message() == SaveErrorPrefix + save(FolderForFile(name), name).value)
  {
  }

  /** The two validation checks come before anything else: a request that
      fails one gets the same response whatever the sanitiser and the store do. */
  lemma ValidationComesFirst(request: Request,
                             secure1: string -> string, save1: (string, string) -> Option<string>,
                             secure2: string -> string, save2: (string, string) -> Option<string>)
    requires FileField !in request.files || request.files[FileField].filename == []
    ensures UploadFile(request, secure1, save1) == UploadFile(request, secure2, save2)
  {
  }

  /** A stored file's relative path is its folder, one '/', then its name, and
      the folder holds no '/': cutting the path at its first '/' gives back the
      folder and the name, the way the listing endpoint builds paths. */
  lemma RelativePathSplits(request: Request, secureFilename: string -> string,
                           save: (string, string) -> Option<string>)
    requires UploadFile(request, secureFilename, save).Uploaded?
    ensures var file := UploadFile(request, secureFilename, save).file;
      && IsFolderName(file.category)
      && |file.category| < |file.relativePath|
      && file.relativePath[|file.category|] == Sep
      && (forall i :: 0 <= i < |file.category| ==> file.relativePath[i] != Sep)
      && file.relativePath[..|file.category|] == file.category
      && file.relativePath[|file.category| + 1..] == file.name
  {
    var file := UploadFile(request, secureFilename, save).file;
    var p := file.relativePath;
    assert p == file.category + [Sep] + file.name;
    assert forall i :: 0 <= i < |file.category| ==> p[i] == file.category[i];
  }

  /** Re-uploading under a name that differs only in the case of its
      extension picks the same folder. */
  lemma FolderIgnoresExtensionCase(name: string, root: string, ext1: string, ext2: string)
    requires SplitExt(name) == (root, ext1)
    requires Lower(ext1) == Lower(ext2)
    ensures FolderForFile(name) == CategoryForExtension(ext2)
  {
    CaseInsensitive(ext1, ext2);
  }

  /** The success response for a request that passes validation and whose
      file is saved, given the folder its extension selects. */
  lemma UploadStores(request: Request, secureFilename: string -> string,
                     save: (string, string) -> Option<string>, folder: string)
    requires FileField in request.files && request.files[FileField].filename != []
    requires FolderForFile(secureFilename(request.files[FileField].filename)) == folder
    requires save(folder, secureFilename(request.files[FileField].filename)) == None
    ensures var name := secureFilename(request.files[FileField].filename);
      UploadFile(request, secureFilename, save) == Uploaded(StoredFile(name, folder, folder + [Sep] + name))
  {
  }

  /** "Report.PDF" goes to the "pdf" folder: its extension ".PDF" is found
      in the table once lower-cased. */
  lemma PdfFolderExample()
    ensures FolderForFile("Report.PDF") == "pdf"
  {
    SplitExtOfName("Report.PDF", "Report", ".PDF");
    UpperCasePdf();
  }

  /** A name without an extension goes to the "others" folder. */
  lemma NoExtensionFolderExample()
    ensures FolderForFile("README") == Others
  {
    SplitExtNoDot();
    EmptyExtension();
  }

  /** A failed save is reported with status 500 and the error's text. */
  lemma UploadSaveErrorExample()
    ensures UploadFile(Request(map[FileField := FileStorage("a.txt")]), s => s,
                       (folder, name) => Some("disk full"))
         == Failed("Error saving file: disk full", StatusServerError)
  {
  }

  /** With no "file" field, the other fields do not matter. */
  lemma UploadWrongFieldExample(secureFilename: string -> string, save: (string, string) -> Option<string>)
    ensures UploadFile(Request(map["document" := FileStorage("a.txt")]), secureFilename, save)
         == Failed(NoFileMessage, StatusBadRequest)
  {
  }
}
