/** file_ops.py: `FileOps`, a create/read/update/delete store guarded by
    existence checks. The disk is a map from path to content; a path is an
    opaque key. */
module FileStore {
  import opened Options
  import opened PyStrings

  /** The two modes `update_file` is called with: 'w' overwrites, 'a' appends. */
  datatype WriteMode = Overwrite | Append

  /** The content of a file after writing `content` to it in `mode`. */
  function AfterWrite(current: string, content: string, mode: WriteMode): string {
    match mode
    case Overwrite => content
    case Append => current + content
  }

  class FileOps {
    /** The files on disk: path to content. */
    var files: map<string, string>
    /** Every path opened for writing or removed, oldest first. */
    var touched: seq<string>

    /** `FileOps()` over the disk as it is found. */
    constructor (disk: map<string, string>)
      ensures files == disk && touched == []
    {
      files := disk;
      touched := [];
    }

    /** `create_file`: refuses an existing path, otherwise writes `content`. */
    method CreateFile(path: string, content: string) returns (ok: bool)
      modifies this
      ensures ok <==> path !in old(files)
      ensures files == if ok then old(files)[path := content] else old(files)
      ensures touched == if ok then old(touched) + [path] else old(touched)
    {
      if path in files {
        return false;
      }
      files := files[path := content];
      touched := touched + [path];
      return true;
    }

    /** `read_file`: the content, or `None` when the path is absent. */
    method ReadFile(path: string) returns (r: Option<string>)
      ensures r.None? <==> path !in files
      ensures r.Some? ==> path in files && r.value == files[path]
    {
      if path !in files {
        return None;
      }
      return Some(files[path]);
    }

    /** `update_file`: refuses a missing path, otherwise overwrites or appends. */
    method UpdateFile(path: string, content: string, mode: WriteMode) returns (ok: bool)
      modifies this
      ensures ok <==> path in old(files)
      ensures ok ==> files == old(files)[path := AfterWrite(old(files)[path], content, mode)]
      ensures !ok ==> files == old(files)
      ensures touched == if ok then old(touched) + [path] else old(touched)
    {
      if path !in files {
        return false;
      }
      files := files[path := AfterWrite(files[path], content, mode)];
      touched := touched + [path];
      return true;
    }

    /** `delete_file`: refuses a missing path, otherwise removes it. */
    method DeleteFile(path: string) returns (ok: bool)
      modifies this
      ensures ok <==> path in old(files)
      ensures files == old(files) - {path}
      ensures touched == if ok then old(touched) + [path] else old(touched)
    {
      if path !in files {
        return false;
      }
      files := files - {path};
      touched := touched + [path];
      return true;
    }

    /** `replace_in_file`: every occurrence of `oldText` becomes `newText`;
        a file the replacement would not change is not written. */
    method ReplaceInFile(path: string, oldText: string, newText: string) returns (ok: bool)
      modifies this
      ensures ok <==> path in old(files)
      ensures ok ==> files == old(files)[path := ReplaceAll(old(files)[path], oldText, newText)]
      ensures !ok ==> files == old(files)
      ensures touched == if ok && ReplaceAll(old(files)[path], oldText, newText) != old(files)[path]
                         then old(touched) + [path] else old(touched)
      ensures ok && oldText != [] && !Contains(old(files)[path], oldText) ==>
                files == old(files) && touched == old(touched)
    {
      var content := ReadFile(path);
      if content.None? {
        return false;
      }
      var newContent := ReplaceAll(content.value, oldText, newText);
      if content.value == newContent {
        return true;
      }
      if oldText != [] && !Contains(content.value, oldText) {
        ReplaceAllAbsent(content.value, oldText, newText);
      }
      ok := UpdateFile(path, newContent, Overwrite);
    }
  }
}
