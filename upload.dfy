/**
 * The multer configuration of the chat server: the folder a file goes to
 * by its form field, the stored file name, the MIME filter for avatars and
 * voice messages, and the size limit. Date.now() and the random suffix
 * are parameters.
 */
module Upload {
  import opened Common
  import opened Strings

  /** `destination`: the folder (below the server directory) a file of that form field is written to. */
  function Destination(fieldname: string): string
  {
    if fieldname == "avatar" then "uploads/avatars"
    else if fieldname == "audio" then "uploads/audio"
    else "uploads/files"
  }

  /** The index of the last '.' of s. */
  function LastDot(s: string): (r: Option<nat>)
    ensures r.Some? ==> r.value < |s| && s[r.value] == '.'
    ensures r.Some? ==> forall i :: r.value < i < |s| ==> s[i] != '.'
    ensures r.None? ==> forall i :: 0 <= i < |s| ==> s[i] != '.'
  {
    if s == [] then None
    else if s[|s| - 1] == '.' then Some(|s| - 1)
    else LastDot(s[..|s| - 1])
  }

  /**
   * `path.extname` of a name without '/': from the last '.' to the end,
   * or "" when there is no '.', the only '.' opens the name, or the name
   * is "..".
   */
  function Extname(name: string): (e: string)
    ensures e == "" || (e[0] == '.' && forall i :: 1 <= i < |e| ==> e[i] != '.')
    ensures e != "" ==> |e| < |name| && e == name[|name| - |e|..]
  {
    var k := LastDot(name);
    if k.None? || k.value == 0 || name == ".." then "" else name[k.value..]
  }

  /** `filename`: `<field>-<Date.now()>-<random>` followed by the lower-cased extension. */
  function Filename(fieldname: string, stamp: nat, suffix: nat, originalname: string): string
  {
    fieldname + "-" + IntToString(stamp) + "-" + IntToString(suffix) + ToLower(Extname(originalname))
  }

  /** No character of s is a '.'. */
  predicate Dotless(s: string)
  {
    forall i :: 0 <= i < |s| ==> s[i] != '.'
  }

  lemma GeneratedPrefixDotless(fieldname: string, stamp: nat, suffix: nat)
    requires Dotless(fieldname)
    ensures Dotless(fieldname + "-" + IntToString(stamp) + "-" + IntToString(suffix))
  {
    var a, b := IntToString(stamp), IntToString(suffix);
    var p := fieldname + "-" + a + "-" + b;
    forall i | 0 <= i < |p| ensures p[i] != '.' {
      if i < |fieldname| {
      } else if i == |fieldname| {
      } else if i < |fieldname| + 1 + |a| {
        assert p[i] == a[i - |fieldname| - 1];
      } else if i == |fieldname| + 1 + |a| {
      } else {
        assert p[i] == b[i - |fieldname| - 2 - |a|];
      }
    }
  }

  /** Appending an extension to a longer dotless stem makes it the name's extension. */
  lemma ExtnameOfStem(p: string, e: string)
    requires |p| >= 2 && Dotless(p)
    requires e == "" || (e[0] == '.' && forall i :: 1 <= i < |e| ==> e[i] != '.')
    ensures Extname(p + e) == e
  {
    var name := p + e;
    if e == "" {
      assert name == p;
    } else {
      var k := LastDot(name);
      assert name[|p|] == '.';
      forall i | |p| < i < |name| ensures name[i] != '.' {
        assert name[i] == e[i - |p|];
      }
      assert k.value == |p|;
      assert name[|p|..] == e;
    }
  }

  /**
   * The stored file keeps the extension of the uploaded one, lower-cased:
   * the generated prefix contributes no '.'.
   */
  lemma StoredNameKeepsExtension(fieldname: string, stamp: nat, suffix: nat, originalname: string)
    requires Dotless(fieldname)
    ensures Extname(Filename(fieldname, stamp, suffix, originalname)) == ToLower(Extname(originalname))
  {
    var p := fieldname + "-" + IntToString(stamp) + "-" + IntToString(suffix);
    var e := ToLower(Extname(originalname));
    GeneratedPrefixDotless(fieldname, stamp, suffix);
    assert Filename(fieldname, stamp, suffix, originalname) == p + e;
    ExtnameOfStem(p, e);
  }

  const ImageOnly: string := "只能上传图片文件！"
  const AudioOnly: string := "只能上传音频文件！"

  /** `fileFilter`: avatars must be images and voice messages audio; any other field passes. */
  function FileFilter(fieldname: string, mimetype: string): (err: Option<string>)
  {
    if fieldname == "avatar" then
      (if StartsWith(mimetype, "image/") then None else Some(ImageOnly))
    else if fieldname == "audio" then
      (if StartsWith(mimetype, "audio/") then None else Some(AudioOnly))
    else None
  }

  /** The filter accepts exactly the image avatars, the audio voice messages and every other field. */
  lemma FileFilterAccepts(fieldname: string, mimetype: string)
    ensures FileFilter(fieldname, mimetype).None? <==>
      (fieldname == "avatar" ==> StartsWith(mimetype, "image/"))
      && (fieldname == "audio" ==> StartsWith(mimetype, "audio/"))
  {
  }

  /** `limits.fileSize`: 10 MiB. */
  const MaxFileSize: nat := 10 * 1024 * 1024

  /** multer's message for a file over the size limit. */
  const TooLarge: string := "File too large"

  datatype StoredFile = StoredFile(dir: string, filename: string)

  /**
   * One upload through the middleware: the filter first, then the size
   * limit while the body is streamed, then the file is stored under
   * destination/filename.
   */
  function Receive(fieldname: string, mimetype: string, size: nat, originalname: string,
                   stamp: nat, suffix: nat): (r: Result<StoredFile>)
    ensures r.Ok? <==> FileFilter(fieldname, mimetype).None? && size <= MaxFileSize
    ensures r.Ok? && fieldname == "avatar" ==> r.value.dir == "uploads/avatars" && StartsWith(mimetype, "image/")
    ensures r.Ok? && fieldname == "audio" ==> r.value.dir == "uploads/audio" && StartsWith(mimetype, "audio/")
    ensures r.Ok? && fieldname != "avatar" && fieldname != "audio" ==> r.value.dir == "uploads/files"
    ensures r.Ok? ==> StartsWith(r.value.filename, fieldname + "-")
    ensures FileFilter(fieldname, mimetype).Some? ==> r == Err(FileFilter(fieldname, mimetype).value)
  {
    var err := FileFilter(fieldname, mimetype);
    if err.Some? then Err(err.value)
    else if size > MaxFileSize then Err(TooLarge)
    else
      var name := Filename(fieldname, stamp, suffix, originalname);
      assert name == (fieldname + "-") + (IntToString(stamp) + "-" + IntToString(suffix) + ToLower(Extname(originalname)));
      Ok(StoredFile(Destination(fieldname), name))
  }
}
