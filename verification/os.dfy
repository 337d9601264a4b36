/** The part of the operating system's file interface the engine uses, as an
    object holding the content of every file by path. Whether an open or a
    write succeeds is decided by the environment; it reaches the model as a
    flag. */
module Os {
  import opened Wrappers
  import opened Builtins

  class FileSystem {
    var files: map<string, string>

    constructor (files: map<string, string>)
      ensures this.files == files
    {
      this.files := files;
    }

    /** os.Open followed by reading the whole file: fails exactly when the
        file does not exist. */
    method Open(name: string) returns (content: string, err: Option<Error>)
      ensures err == None <==> name in files
      ensures err == None ==> content == files[name]
      ensures err != None ==> err == Some(NotExist(name)) && content == ""
    {
      if name in files {
        return files[name], None;
      }
      return "", Some(NotExist(name));
    }

    /** os.OpenFile(name, O_WRONLY|O_APPEND|O_CREATE, 0700): on success the
        file exists afterwards, empty if it was created; nothing is written. */
    method OpenAppend(name: string, ok: bool) returns (err: Option<Error>)
      modifies this
      ensures ok ==> err == None && name in files
      ensures ok ==> files == if name in old(files) then old(files) else old(files)[name := ""]
      ensures !ok ==> err == Some(OpenFailed(name)) && files == old(files)
    {
      if !ok {
        return Some(OpenFailed(name));
      }
      if name !in files {
        files := files[name := ""];
      }
      return None;
    }

    /** (*os.File).WriteString on a file opened for appending: the data goes
        to the end of the file, or, on failure, nothing changes. */
    method WriteString(name: string, data: string, ok: bool) returns (err: Option<Error>)
      requires name in files
      modifies this
      ensures ok ==> err == None && files == old(files)[name := old(files)[name] + data]
      ensures !ok ==> err == Some(WriteFailed(name)) && files == old(files)
    {
      if !ok {
        return Some(WriteFailed(name));
      }
      files := files[name := files[name] + data];
      return None;
    }
  }
}
