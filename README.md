# Smartend backend: choosing a file's storage folder

This project models the one piece of real logic in the Smartend file
server (`backend/app.py`): how an uploaded file's extension decides the
folder it is stored in under the storage root, and the decisions the
upload endpoint makes around that choice.

- `EXTENSION_MAP` sends sixteen known extensions to fixed folders:
  `.doc`/`.docx` to `word`, `.pdf` to `pdf`, `.xls`/`.xlsx` to `excel`,
  `.ppt`/`.pptx` to `powerpoint`, `.mp3`/`.wav` to `audio`,
  `.mp4`/`.mov`/`.avi` to `video`, `.png`/`.jpg`/`.jpeg` to `images`,
  and `.txt` to `text`.
- `get_category_for_extension` lower-cases the extension and looks it up
  in that table. If the extension is not in the table, the folder is the
  extension without its leading dots. If that leaves nothing, the folder
  is `others`.
- `upload_file` does three things:
  - It rejects a request with no `file` field ("No file found", 400). It
    then rejects an empty filename ("Empty filename", 400).
  - It sanitises the name and takes its extension with `os.path.splitext`.
    It then picks the folder and saves the file there. A save that raises
    gives "Error saving file: ...", 500.
  - It reports the stored name, the folder as `category`, and
    `relative_path` = `category + "/" + name`.

Modules, one per concern:

- `Strings` (`strings.dfy`): `str.lower` (`Lower`), `str.lstrip` with one
  character (`StripLeading`) and `str.rfind` (`LastIndexOf`), each with a
  contract that pins down its result. `StripLeadingUnique` and
  `LastIndexOfUnique` prove that those contracts force a unique result.
- `Paths` (`paths.dfy`): `os.path.splitext` for POSIX paths (`SplitExt`).
  It follows the library's documented rule and the shape of its loop over
  leading dots (`SkipDots`). `SplitExtSound` and `SplitExtFindsExtension`
  together give both directions: the split it returns is valid, and any
  valid split of that kind is the one it returns.
- `Categories` (`categories.dfy`): the table (`ExtensionMap`), the
  categorisation (`CategoryForExtension`) and its properties: table hits,
  case-insensitivity, the leading-dot fallback, exactly when `others` is
  chosen, and that the result for an extension without '/' is a safe
  single folder name. Every extension `splitext` returns has no '/', so
  every folder an upload picks is one (`Upload.FolderForFile`).
- `Upload` (`upload.dfy`): the upload decision (`UploadFile`), a pure
  function from a request to the response. The sanitiser
  (`secure_filename`) and the save call (`file.save`) are parameters.

Smartend's browser client treats the category as data the server
supplies. This model covers the server code that produces that data. The code
always produces a non-empty category for an upload, so the client's "absent category" case never
arises from this endpoint.

## Model

| member | source | states |
|---|---|---|
| `Strings.Lower` | backend/app.py:44 | `ext.lower()`: the result has the same length, and each character is that character lower-cased (ASCII letters) |
| `Strings.LowerChar` | backend/app.py:44 | one character of `str.lower`, for ASCII only: an ASCII capital becomes the letter 32 code points later, any other character is unchanged, and the result is never an ASCII capital |
| `Strings.LowerIdempotent` | backend/app.py:44 | lower-casing twice is the same as lower-casing once |
| `Strings.StripLeading` | backend/app.py:47 | `ext.lstrip(".")`: the result is a suffix of the input, everything before it is the stripped character, and it does not itself start with that character |
| `Strings.StripLeadingUnique` | backend/app.py:47 | any split of a string into a run of the character and a rest not starting with it is the one `StripLeading` returns, so its contract fixes its result |
| `Strings.StripLeadingEmpty` | backend/app.py:47 | stripping leaves nothing exactly when every character is the stripped one (the case that falls through to `or "others"`) |
| `Strings.StripLeadingLower` | backend/app.py:44-47 | lower-casing and stripping dots commute |
| `Strings.LastIndexOf` | backend/app.py:66 | `str.rfind` as used by `splitext`: -1 or an index holding the character, with no later occurrence |
| `Strings.LastIndexOfUnique` | backend/app.py:66 | the contract of `LastIndexOf` determines its result |
| `Paths.SkipDots` | backend/app.py:66 | the leading-dot loop of `splitext`: the first non-dot index in a range, with only dots before it |
| `Paths.SkipDotsUnique` | backend/app.py:66 | the contract of `SkipDots` determines its result: any index with only dots before it and a non-dot (or the end of the range) at it is the one `SkipDots` returns |
| `Paths.SplitExt` | backend/app.py:66 | `os.path.splitext(filename)` as the pair (root, ext); it has no `ensures` of its own, and its contract is `Paths.SplitExtSound`, `Paths.SplitExtFindsExtension` and `Paths.SplitExtNone` below |
| `Paths.SplitExtSound` | backend/app.py:66 | `splitext`: root + ext is the path; ext is empty or one '.' followed by neither '.' nor '/'; a non-empty ext leaves a non-dot character in the root's final component |
| `Paths.SplitExtFindsExtension` | backend/app.py:66 | completeness: every split of that kind is the one `splitext` returns, so the extension is exactly the suffix from the last '.' of the final component |
| `Paths.SplitExtNone` | backend/app.py:66 | when only dots come before each '.' of the final component, there is no extension |
| `Paths.SplitExtLastDot` | backend/app.py:66 | "archive.tar.gz" splits into "archive.tar" and ".gz" |
| `Paths.SplitExtTrailingDot` | backend/app.py:66 | "archive." splits into "archive" and "." |
| `Paths.SplitExtLeadingDot` | backend/app.py:66 | ".bashrc" has no extension |
| `Paths.SplitExtLeadingDots` | backend/app.py:66 | "..notes" has no extension |
| `Paths.SplitExtNoDot` | backend/app.py:66 | "README" has no extension |
| `Categories.ExtensionMap` | backend/app.py:20-37 | `EXTENSION_MAP`, entry by entry; its properties are the five table lemmas below, and `Categories.TableHit` |
| `Categories.TableKeysDotted` | backend/app.py:20-37 | every key of the table is a dot followed by a non-dot |
| `Categories.TableKeysLower` | backend/app.py:20-37 | every key of the table is lower-case, so lower-casing the lookup key can hit it |
| `Categories.TableValuesFolderNames` | backend/app.py:20-37 | every folder in the table is non-empty, does not start with '.', and has no '/' |
| `Categories.TableValuesLower` | backend/app.py:20-37 | every folder in the table is lower-case |
| `Categories.TableAvoidsOthers` | backend/app.py:20-37 | no table entry is the folder `others`, and ".others" is not a key |
| `Categories.CategoryForExtension` | backend/app.py:39-47 | the folder is never empty, never starts with '.', is lower-case, and has no '/' when the extension has none |
| `Categories.TableHit` | backend/app.py:44-46 | each of the sixteen table extensions gets its listed folder |
| `Categories.CaseInsensitive` | backend/app.py:44-46 | two extensions equal up to case get the same folder |
| `Categories.CategoryOfLower` | backend/app.py:44-46 | `get_category_for_extension(e) == get_category_for_extension(e.lower())` |
| `Categories.UnknownExtension` | backend/app.py:44-47 | outside the table, and with some non-dot character, the folder is the lower-cased extension minus its leading dots |
| `Categories.OnlyDotsGoToOthers` | backend/app.py:47 | an empty extension, or one made only of dots, goes to `others` |
| `Categories.OthersExactly` | backend/app.py:44-47 | `others` is chosen if and only if the extension is all dots or empty, or it names `others` once the dots are stripped |
| `Categories.TableExtensionNotOthers` | backend/app.py:20-46 | a table extension never leads to `others` |
| `Categories.UpperCaseTableExtension` | backend/app.py:44-46 | ".DOCX" goes to `word` |
| `Categories.MixedCaseTableExtension` | backend/app.py:44-46 | ".JpEg" goes to `images` |
| `Categories.UpperCasePdf` | backend/app.py:44-46 | ".PDF" goes to `pdf` |
| `Categories.UnknownUpperCase` | backend/app.py:44-47 | ".XYZ" goes to `xyz` |
| `Categories.UnknownWithoutDot` | backend/app.py:44-47 | "Md" goes to `md` |
| `Categories.EmptyExtension` | backend/app.py:47 | "" goes to `others` |
| `Categories.DotsOnlyExtension` | backend/app.py:47 | "..." goes to `others` |
| `Upload.FolderForFile` | backend/app.py:66-68 | the folder chosen from a sanitised name is a safe single folder name |
| `Upload.UploadResponse.Success` | backend/app.py:58-94 | the response's `success` flag; `Upload.ResponseConsistent` states that it holds exactly when the status is 200 |
| `Upload.UploadResponse.Message` | backend/app.py:58-94 | the response's `message`; `Upload.ResponseConsistent` states it for success and for a failed save |
| `Upload.UploadResponse.Status` | backend/app.py:58-94 | the HTTP status (200 when none is given); `Upload.ResponseConsistent` ties 400 and 500 to their causes |
| `Upload.UploadFile` | backend/app.py:55-94 | no `file` field gives ("No file found", 400) whatever the filename; otherwise an empty filename gives ("Empty filename", 400); once both checks pass, a save that raises gives ("Error saving file: " + the error, 500); success happens exactly when both checks pass and the save raises nothing; on success the name is the sanitised filename, the category comes from its extension, and the relative path is category + "/" + name |
| `Upload.ResponseConsistent` | backend/app.py:57-94 | success holds exactly when the status is 200; 400 marks exactly the two validation failures; 500 marks exactly a failed save, and a 500 response's message is "Error saving file: " followed by the error |
| `Upload.ValidationComesFirst` | backend/app.py:57-65 | a request that fails validation gets the same response whatever the sanitiser and the save do |
| `Upload.RelativePathSplits` | backend/app.py:87-92 | the relative path's first '/' comes right after the category, so cutting there gives back the category and the name |
| `Upload.FolderIgnoresExtensionCase` | backend/app.py:66-68 | names whose extensions differ only in case go to the same folder |
| `Upload.UploadStores` | backend/app.py:65-94 | the exact success response for a request that passes validation and is saved |
| `Upload.PdfFolderExample` | backend/app.py:65-68 | "Report.PDF" is stored in `pdf` |
| `Upload.NoExtensionFolderExample` | backend/app.py:65-68 | "README" is stored in `others` |
| `Upload.UploadSaveErrorExample` | backend/app.py:76-79 | a save raising "disk full" gives ("Error saving file: disk full", 500) |
| `Upload.UploadWrongFieldExample` | backend/app.py:57-58 | a file sent under another field name gives ("No file found", 400) |

## Left out

- `Strings.Lower` and `Strings.LowerChar`: lower-case only the ASCII letters A-Z. Python's
  `str.lower` also maps non-ASCII letters and can change a string's length
  (for example U+0130). So `Categories.CategoryForExtension` matches the
  source only for extensions whose letters are ASCII.
- `secure_filename` (backend/app.py:65) is a parameter of `UploadFile` with
  no assumed behaviour. Its internals belong to werkzeug, outside this
  model.
- `file.save` (backend/app.py:76-79) is a parameter of `UploadFile`. It
  takes the folder and the name, and returns the text of the exception it
  raised, if any. The text of the exception stands in for `str(e)`.
- Creating the category folder (backend/app.py:71-72) and the storage
  root (backend/app.py:17) is not modelled: it is filesystem I/O, and a
  failure there is not handled by the code.
- `os.path.splitext` is modelled for POSIX paths. The Windows variant,
  where '\\' is also a separator, is not modelled.
- Size and timestamps of the stored file (backend/app.py:81, 89-91) are
  left out. They come from `stat` and from clock and float conversions in a
  library.
- `request.files` is modelled as a map from field name to one file. The
  handler reads only the first file of a field, so later files under
  "file" are not represented. A missing client filename (None in
  werkzeug) is not represented either.
- Flask routing, JSON encoding, CORS and the health endpoint
  (backend/app.py:5-10, 50-52) are framework plumbing.
- `list_files` (backend/app.py:97-115) walks the storage directories, and
  `download` (backend/app.py:118-125) checks that a file exists and sends
  it. Both are filesystem I/O. `RelativePathSplits` shows that an upload's
  relative path has the same `folder/name` shape that `list_files` builds.
- The browser client (catalog, sorting, search, preview, upload progress)
  is not part of this model.
