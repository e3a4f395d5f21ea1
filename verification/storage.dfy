/**
 * The host vault as `createMarkdownFile` uses it: an existence test, folder
 * creation, binary writes and text-file creation. Whether a write is refused
 * is decided by the caller-supplied `fail` flag, standing for every reason the
 * host may reject it (permissions, a full disk, an already existing file).
 */
module Storage {

  /** What a file holds: bytes written by `writeBinary`, or text written by `create`. */
  datatype Content = Binary(bytes: seq<bv8>) | Text(text: string)

  /** A mutating request sent to the vault, whether or not it succeeded. */
  datatype Call = CreateFolderCall(path: string) | WriteBinaryCall(path: string) | CreateCall(path: string)

  class Vault {
    /** The absolute directory of the vault on disk (`adapter.basePath`). */
    const basePath: string
    var folders: set<string>
    var files: map<string, Content>
    /** Every mutating request made so far, in order. */
    ghost var calls: seq<Call>

    constructor (basePath: string, folders: set<string>, files: map<string, Content>)
      ensures this.basePath == basePath && this.folders == folders && this.files == files
      ensures calls == []
    {
      this.basePath := basePath;
      this.folders := folders;
      this.files := files;
      calls := [];
    }

    /** `adapter.exists`: true for a folder or a file at `path`. */
    method Exists(path: string) returns (present: bool)
      ensures present <==> path in folders || path in files
    {
      present := path in folders || path in files;
    }

    /** `vault.createFolder`: adds the folder unless the host refuses. */
    method CreateFolder(path: string, fail: bool) returns (ok: bool)
      modifies this
      ensures ok == !fail
      ensures folders == if ok then old(folders) + {path} else old(folders)
      ensures files == old(files)
      ensures calls == old(calls) + [CreateFolderCall(path)]
    {
      ok := !fail;
      if ok {
        folders := folders + {path};
      }
      calls := calls + [CreateFolderCall(path)];
    }

    /** `adapter.writeBinary`: stores the bytes at `path` unless the host refuses. */
    method WriteBinary(path: string, data: seq<bv8>, fail: bool) returns (ok: bool)
      modifies this
      ensures ok == !fail
      ensures files == if ok then old(files)[path := Binary(data)] else old(files)
      ensures folders == old(folders)
      ensures calls == old(calls) + [WriteBinaryCall(path)]
    {
      ok := !fail;
      if ok {
        files := files[path := Binary(data)];
      }
      calls := calls + [WriteBinaryCall(path)];
    }

    /** `vault.create`: stores the text at `path` unless the host refuses. */
    method Create(path: string, text: string, fail: bool) returns (ok: bool)
      modifies this
      ensures ok == !fail
      ensures files == if ok then old(files)[path := Text(text)] else old(files)
      ensures folders == old(folders)
      ensures calls == old(calls) + [CreateCall(path)]
    {
      ok := !fail;
      if ok {
        files := files[path := Text(text)];
      }
      calls := calls + [CreateCall(path)];
    }
  }
}
