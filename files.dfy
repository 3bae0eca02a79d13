/** The part of the file system the pipeline touches: files it writes and
    reads back, and the directories it creates. */
module Files {
  import opened Records

  /** What a file holds, as far as the pipeline reads it back. */
  datatype Content =
    | Download(bytes: seq<bv8>)                 // the body of an HTTP response
    | PagePreview(source: Content)              // the first page of a PDF, rasterised
    | FigureImage(width: int, height: int, mode: string)
    | PapersJson(papers: seq<Paper>)            // the cache: the dumped paper list

  /** `Path(dir) / name`, as plain string concatenation with `/`: pathlib's
      normalisation (a trailing `/` in `dir`, an empty `dir`) is not applied. */
  function Slash(dir: string, name: string): string
  {
    dir + "/" + name
  }

  class FileStore {
    var files: map<string, Content>
    var dirs: set<string>

    constructor(files0: map<string, Content>, dirs0: set<string>)
      ensures files == files0 && dirs == dirs0
    {
      files := files0;
      dirs := dirs0;
    }

    /** `os.path.exists(path)`: true for a file and for a directory. */
    predicate Exists(path: string)
      reads this
    {
      path in files || path in dirs
    }

    /** Opens `path` for writing and writes `c`, replacing what was there. */
    method Write(path: string, c: Content)
      modifies this
      ensures files == old(files)[path := c]
      ensures dirs == old(dirs)
    {
      files := files[path := c];
    }

    /** `Path(path).mkdir(parents=True, exist_ok=True)`. */
    method MakeDirs(path: string)
      modifies this
      ensures dirs == old(dirs) + {path}
      ensures files == old(files)
    {
      dirs := dirs + {path};
    }
  }
}
