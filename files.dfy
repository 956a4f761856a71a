/**
 * The part of the operating system's file system the core touches: a map from paths to
 * contents. Paths in `refused` cannot be created or overwritten (a missing directory, a
 * read-only file, ...); that set stands for every OS-level write failure.
 */
module Files {
  import opened Common

  function NotFound(path: string): string {
    "cannot read " + path
  }

  function CannotCreate(path: string): string {
    "cannot create " + path
  }

  class FileSystem {
    var files: map<string, seq<byte>>
    const refused: set<string>

    constructor (initial: map<string, seq<byte>>, readOnly: set<string>)
      ensures files == initial && refused == readOnly
    {
      files := initial;
      refused := readOnly;
    }

    /** `fs::read`. */
    function ReadFile(path: string): (r: Result<seq<byte>>)
      reads this
      ensures r.Ok? <==> path in files
      ensures r.Ok? ==> r.value == files[path]
      ensures r.Err? ==> r.msg == NotFound(path)
    {
      if path in files then Ok(files[path]) else Err(NotFound(path))
    }

    /** `File::create`: truncates or creates `path`, unless the OS refuses it. */
    method Create(path: string) returns (r: Result<()>)
      modifies this
      ensures r.Ok? <==> path !in refused
      ensures r.Err? ==> r.msg == CannotCreate(path) && files == old(files)
      ensures r.Ok? ==> files == old(files)[path := []]
    {
      if path in refused {
        r := Err(CannotCreate(path));
      } else {
        files := files[path := []];
        r := Ok(());
      }
    }

    /** `write_all` on a file created earlier: appends `data` to it. */
    method Append(path: string, data: seq<byte>)
      requires path in files
      modifies this
      ensures files == old(files)[path := old(files)[path] + data]
    {
      files := files[path := files[path] + data];
    }

    /** `fs::write`: create, then write all of `data`. */
    method Write(path: string, data: seq<byte>) returns (r: Result<()>)
      modifies this
      ensures r.Ok? <==> path !in refused
      ensures r.Err? ==> r.msg == CannotCreate(path) && files == old(files)
      ensures r.Ok? ==> files == old(files)[path := data]
    {
      r := Create(path);
      if r.Ok? {
        Append(path, data);
        assert [] + data == data;
      }
    }
  }
}
