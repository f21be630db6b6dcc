/**
 * The synchronous `fs` calls the core makes (`existsSync`, `readFileSync`,
 * `writeFileSync`, `appendFileSync`) over an in-memory file store. Which calls
 * throw is part of the store's state: reading an unreadable file, and writing
 * or appending to an unwritable path.
 */
module FileSystem {
  import opened Wrappers

  class FileStore {
    /** The contents of every file that exists, by path. */
    var files: map<string, string>
    /** Paths whose `readFileSync` throws. */
    var unreadable: set<string>
    /** Paths whose `writeFileSync` and `appendFileSync` throw. */
    var unwritable: set<string>

    constructor (files: map<string, string>, unreadable: set<string>, unwritable: set<string>)
      ensures this.files == files && this.unreadable == unreadable && this.unwritable == unwritable
    {
      this.files := files;
      this.unreadable := unreadable;
      this.unwritable := unwritable;
    }

    /** `fs.existsSync(path)` */
    predicate Exists(path: string)
      reads this
    {
      path in files
    }

    /** `fs.readFileSync(path, "utf-8")`; None when it throws (missing or unreadable file). */
    function Read(path: string): Option<string>
      reads this
    {
      if path in files && path !in unreadable then Some(files[path]) else None
    }

    /** `fs.writeFileSync(path, data)`: replaces the file, or throws (`ok` false) and changes nothing. */
    method WriteFile(path: string, data: string) returns (ok: bool)
      modifies this`files
      ensures ok == (path !in unwritable)
      ensures files == if ok then old(files)[path := data] else old(files)
    {
      ok := path !in unwritable;
      if ok {
        files := files[path := data];
      }
    }

    /** `fs.appendFileSync(path, data)`: extends the file, creating it when missing, or throws. */
    method AppendFile(path: string, data: string) returns (ok: bool)
      modifies this`files
      ensures ok == (path !in unwritable)
      ensures files == if ok then old(files)[path := (if path in old(files) then old(files)[path] else "") + data]
                       else old(files)
    {
      ok := path !in unwritable;
      if ok {
        var existing := if path in files then files[path] else "";
        files := files[path := existing + data];
      }
    }
  }
}
