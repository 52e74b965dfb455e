/**
 * The upload directory: files are stored under a fresh unique name that keeps the
 * original extension, and deleted by name without ever failing the caller.
 */
module FileStorage {
  import opened Results
  import opened Entities
  import opened Store

  /** The name has two consecutive dots somewhere (a path-traversal attempt). */
  predicate ContainsDotDot(name: string)
  {
    exists i :: 0 <= i < |name| - 1 && name[i] == '.' && name[i + 1] == '.'
  }

  /** `String.lastIndexOf(char)`: the last position holding `c`, or -1. */
  function LastIndexOf(s: string, c: char): (r: int)
    ensures -1 <= r < |s|
    ensures r >= 0 ==> s[r] == c && forall j :: r < j < |s| ==> s[j] != c
    ensures r == -1 <==> c !in s
  {
    if |s| == 0 then -1
    else if s[|s| - 1] == c then |s| - 1
    else
      var r := LastIndexOf(s[..|s| - 1], c);
      assert s == s[..|s| - 1] + [s[|s| - 1]];
      r
  }

  /**
   * The extension kept by `storeFile`: from the last dot to the end, provided that dot
   * is not the first character; otherwise nothing.
   */
  function Extension(name: string): (r: string)
    ensures r == "" <==> LastIndexOf(name, '.') <= 0
    ensures r != "" ==> r[0] == '.' && '.' !in r[1..]
    ensures r != "" ==> |r| < |name| && name[|name| - |r|..] == r
  {
    var i := LastIndexOf(name, '.');
    if i > 0 then name[i..] else ""
  }

  /**
   * The outcome of `storeFile` for one upload: a name containing ".." is refused; a failed
   * copy is a storage error; otherwise the stored name is the generated id followed by the
   * original extension.
   */
  function StoredFileName(file: Upload): (r: Result<string>)
    ensures ContainsDotDot(file.originalName) ==> r == Err(InvalidFileName)
    ensures !ContainsDotDot(file.originalName) && !file.copies ==> r == Err(StorageFailure)
    ensures r.Ok? <==> !ContainsDotDot(file.originalName) && file.copies
    ensures r.Ok? ==> |r.value| >= |file.fileId| && r.value[..|file.fileId|] == file.fileId
    ensures r.Ok? ==> r.value == file.fileId + Extension(file.originalName)
  {
    if ContainsDotDot(file.originalName) then Err(InvalidFileName)
    else if !file.copies then Err(StorageFailure)
    else Ok(file.fileId + Extension(file.originalName))
  }

  /**
   * With a dot-free generated id (a UUID), the stored name has the same extension as the
   * original, and is itself free of "..".
   */
  lemma {:induction false} StoredNameKeepsExtension(file: Upload, name: string)
    requires StoredFileName(file) == Ok(name)
    requires |file.fileId| > 0 && '.' !in file.fileId
    ensures Extension(name) == Extension(file.originalName)
    ensures !ContainsDotDot(name)
  {
    var ext := Extension(file.originalName);
    assert name == file.fileId + ext;
    if ext == "" {
      assert name == file.fileId;
      assert LastIndexOf(name, '.') == -1;
    } else {
      var k := |file.fileId|;
      assert name[k] == '.';
      forall j | k < j < |name| ensures name[j] != '.' {
        assert name[j] == ext[1..][j - k - 1];
      }
      assert LastIndexOf(name, '.') == k;
      assert name[k..] == ext;
    }
    forall i | 0 <= i < |name| - 1 && name[i] == '.' ensures name[i + 1] != '.' {
      if i >= |file.fileId| {
        assert name[i + 1] == ext[1..][i - |file.fileId|];
      }
    }
  }

  /** `storeFile`: on success the new name is in the upload directory; on failure nothing changes. */
  method StoreFile(db: Database, file: Upload) returns (r: Result<string>)
    modifies db`uploads
    ensures r == StoredFileName(file)
    ensures r.Ok? ==> db.uploads == old(db.uploads) + {r.value}
    ensures r.Err? ==> db.uploads == old(db.uploads)
  {
    r := StoredFileName(file);
    if r.Ok? {
      db.uploads := db.uploads + {r.value};
    }
  }

  /**
   * `deleteFile`: removes the file if present; an I/O failure (`fails`) is logged and
   * swallowed, leaving the directory as it was.
   */
  method DeleteFile(db: Database, fileName: string, fails: bool)
    modifies db`uploads
    ensures db.uploads == if fails then old(db.uploads) else old(db.uploads) - {fileName}
  {
    if !fails {
      db.uploads := db.uploads - {fileName};
    }
  }
}
