/** `getFileIcon` reduced to the category whose icon and colour it picks,
    and `getFileExtension`. */
module FileHelpers {
  import opened Wrappers
  import opened Strings

  datatype IconCategory = Folder | ImageIcon | VideoIcon | AudioIcon | DocumentIcon | GenericIcon

  const ImageExtensions: seq<string> := ["jpg", "jpeg", "png", "gif", "webp", "bmp", "heic"]
  const VideoExtensions: seq<string> := ["mp4", "mkv", "mov", "avi", "webm"]
  const AudioExtensions: seq<string> := ["mp3", "wav", "m4a", "flac", "aac"]
  const DocumentExtensions: seq<string> :=
    ["pdf", "doc", "docx", "txt", "xls", "xlsx", "ppt", "pptx", "rtf", "csv", "md"]

  /** The extension `getFileIcon` looks up: the lower-cased last `.` piece
      when the name has more than one piece, otherwise empty. */
  function IconExtension(name: string): (ext: string)
    ensures '.' !in name ==> ext == ""
    ensures '.' in name ==> ext == Lower(LastPiece(name, '.'))
  {
    SplitLengthAboveOne(name, '.');
    LastPieceOfSplit(name, '.');
    var parts := Split(name, '.');
    if |parts| > 1 then Lower(parts[|parts| - 1]) else ""
  }

  /** The table lookup. The tables are pairwise disjoint, so each category
      is chosen exactly when the extension is in its own table, whatever the
      order of the checks. */
  function ExtensionCategory(ext: string): (c: IconCategory)
    ensures c == ImageIcon <==> ext in ImageExtensions
    ensures c == VideoIcon <==> ext in VideoExtensions
    ensures c == AudioIcon <==> ext in AudioExtensions
    ensures c == DocumentIcon <==> ext in DocumentExtensions
    ensures c != Folder
  {
    if ext in ImageExtensions then ImageIcon
    else if ext in VideoExtensions then VideoIcon
    else if ext in AudioExtensions then AudioIcon
    else if ext in DocumentExtensions then DocumentIcon
    else GenericIcon
  }

  /** `getFileIcon(name, isDirectory)`. `name` is `None` when it is missing
      or not a string. */
  function GetFileIcon(name: Option<string>, isDirectory: bool): (c: IconCategory)
    ensures isDirectory ==> c == Folder
    ensures !isDirectory ==> c != Folder
    ensures !isDirectory && (name.None? || name.value == "") ==> c == GenericIcon
    ensures !isDirectory && name.Some? && name.value != "" ==>
      (c == ImageIcon <==> IconExtension(name.value) in ImageExtensions)
      && (c == VideoIcon <==> IconExtension(name.value) in VideoExtensions)
      && (c == AudioIcon <==> IconExtension(name.value) in AudioExtensions)
      && (c == DocumentIcon <==> IconExtension(name.value) in DocumentExtensions)
  {
    if isDirectory then Folder
    else if name.None? || name.value == "" then GenericIcon
    else ExtensionCategory(IconExtension(name.value))
  }

  /** A file name without a `.` gets the generic icon, whatever it spells. */
  lemma DotlessNameIsGeneric(name: string)
    requires '.' !in name
    ensures GetFileIcon(Some(name), false) == GenericIcon
  {
  }

  /** Names that differ only in letter case get the same icon. */
  lemma IconIgnoresCase(a: string, b: string)
    requires Lower(a) == Lower(b)
    ensures GetFileIcon(Some(a), false) == GetFileIcon(Some(b), false)
  {
    LastPieceLower(a);
    LastPieceLower(b);
    SplitLengthAboveOne(a, '.');
    SplitLengthAboveOne(b, '.');
    assert IconExtension(a) == IconExtension(b);
  }

  /** `apk` and `ipa` packages have no icon of their own. */
  lemma PackagesAreGeneric(stem: string)
    ensures GetFileIcon(Some(stem + ".apk"), false) == GenericIcon
    ensures GetFileIcon(Some(stem + ".ipa"), false) == GenericIcon
  {
    assert stem + ".apk" == stem + "." + "apk";
    assert stem + ".ipa" == stem + "." + "ipa";
    Unlisted("apk");
    UnlistedIsGeneric(stem, "apk");
    Unlisted("ipa");
    UnlistedIsGeneric(stem, "ipa");
  }

  /** Neither package extension is in any table. */
  lemma Unlisted(ext: string)
    requires ext == "apk" || ext == "ipa"
    ensures '.' !in ext && Lower(ext) == ext
    ensures ExtensionCategory(ext) == GenericIcon
  {
    assert ext !in ImageExtensions;
    assert ext !in VideoExtensions;
    assert ext !in AudioExtensions;
    assert ext !in DocumentExtensions;
  }

  /** An extension that is its own lower case and in no table gives the
      generic icon, whatever the stem. */
  lemma UnlistedIsGeneric(stem: string, ext: string)
    requires '.' !in ext && Lower(ext) == ext
    requires ExtensionCategory(ext) == GenericIcon
    ensures GetFileIcon(Some(stem + "." + ext), false) == GenericIcon
  {
    PackageExtension(stem, ext);
  }

  lemma PackageExtension(stem: string, ext: string)
    requires '.' !in ext
    ensures IconExtension(stem + "." + ext) == Lower(ext)
  {
    LastPieceAfterSeparator(stem, ext, '.');
    assert stem + "." + ext == stem + ['.'] + ext;
  }

  /** `getFileExtension(name)`: the upper-cased last `.` piece, which is the
      whole name when there is no `.`. */
  function GetFileExtension(name: string): (r: string)
    ensures '.' !in r
    ensures Upper(r) == r
    ensures '.' !in name ==> r == Upper(name)
    ensures '.' in name ==> Lower(r) == IconExtension(name)
  {
    LastPieceIsSuffix(name, '.');
    LowerOfLower(LastPiece(name, '.'));
    UpperOfUpper(LastPiece(name, '.'));
    Upper(LastPiece(name, '.'))
  }
}
