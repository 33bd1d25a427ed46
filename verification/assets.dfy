/** Image upload: the picked file is copied by its base name into an asset
    directory unless a file of that name is already there, and the form keeps
    a forward-slash path relative to the site root. */
module Assets {
  import opened Wrappers
  import opened Text

  const ProductImageDir: string := "assets/img/products"
  const PortfolioImageDir: string := "assets/img/portfolio"

  /** The path conventions of the machine the editor runs on (`os.path`). */
  datatype Host = Posix | Windows

  predicate IsSeparator(host: Host, c: char) {
    c == '/' || (host == Windows && c == '\\')
  }

  /** The separator `os.path.join` inserts. */
  function JoinSeparator(host: Host): (c: char)
    ensures IsSeparator(host, c)
  {
    if host == Posix then '/' else '\\'
  }

  /** `os.path.basename`: the part of the path after its last separator. */
  function Basename(host: Host, path: string): (r: string)
    ensures |r| <= |path| && r == path[|path| - |r|..]
    ensures forall i :: 0 <= i < |r| ==> !IsSeparator(host, r[i])
    ensures |r| < |path| ==> IsSeparator(host, path[|path| - |r| - 1])
  {
    if path == [] then []
    else if IsSeparator(host, path[|path| - 1]) then []
    else Basename(host, path[..|path| - 1]) + [path[|path| - 1]]
  }

  /** `os.path.join(dir, name)` for a directory without a trailing separator and a bare file name. */
  function Join(host: Host, dir: string, name: string): string {
    dir + [JoinSeparator(host)] + name
  }

  /** The destination is the directory, one separator of the host, then the name. */
  lemma JoinShape(host: Host, dir: string, name: string)
    ensures var r := Join(host, dir, name);
            && |r| == |dir| + 1 + |name|
            && r[..|dir|] == dir && IsSeparator(host, r[|dir|]) && r[|dir| + 1..] == name
  {
  }

  /** The path stored in the record: `dir + "/" + name` with every backslash turned into a slash. */
  function RelativePath(dir: string, name: string): (r: string)
    ensures |r| == |dir| + 1 + |name|
    ensures '\\' !in r
    ensures '\\' !in dir ==> r[..|dir| + 1] == dir + "/"
    ensures '\\' !in dir && '\\' !in name ==> r == dir + "/" + name
    ensures r[|dir| + 1..] == Replace(name, '\\', '/')
  {
    ReplaceRemovesAll(dir + "/" + name, '\\', '/');
    ReplaceConcat(dir + "/", name, '\\', '/');
    Replace(dir + "/" + name, '\\', '/')
  }

  /** Files on disk, by path. */
  type Files = map<string, seq<bv8>>

  /** What an upload leaves behind: the files, and the new image path for the
      form (`None` when the picker was cancelled and the form is left alone). */
  datatype Upload = Upload(files: Files, image: Option<string>)

  /** One press of the upload button. `picked` is the picker's answer (empty when
      cancelled) and `content` the bytes of the picked file. */
  function UploadImage(host: Host, dir: string, files: Files, picked: string, content: seq<bv8>): (r: Upload)
    ensures picked == [] ==> r == Upload(files, None)
    ensures picked != [] ==> r.image == Some(RelativePath(dir, Basename(host, picked)))
    ensures picked != [] ==> r.files.Keys == files.Keys + {Join(host, dir, Basename(host, picked))}
    ensures forall f :: f in files ==> f in r.files && r.files[f] == files[f]
    ensures picked != [] && Join(host, dir, Basename(host, picked)) !in files ==>
              r.files[Join(host, dir, Basename(host, picked))] == content
  {
    if picked == [] then Upload(files, None)
    else
      var name := Basename(host, picked);
      var dest := Join(host, dir, name);
      var files' := if dest in files then files else files[dest := content];
      Upload(files', Some(RelativePath(dir, name)))
  }

  /** Uploading a file whose name is already in the directory changes no file
      and yields the same path, whatever the new file holds. */
  lemma UploadSameNameTwice(host: Host, dir: string, files: Files, first: string, second: string, a: seq<bv8>, b: seq<bv8>)
    requires first != [] && second != []
    ensures Basename(host, first) == Basename(host, second) ==>
              var u := UploadImage(host, dir, files, first, a);
              UploadImage(host, dir, u.files, second, b) == u
  {
  }

  /** The stored path is the backslash-joined path with every backslash turned into a slash. */
  lemma RelativePathIsNormalisedJoin(dir: string, name: string)
    ensures RelativePath(dir, name) == Replace(dir + ['\\'] + name, '\\', '/')
  {
    ReplaceConcat(dir, ['\\'] + name, '\\', '/');
    ReplaceConcat(['\\'], name, '\\', '/');
    ReplaceConcat(dir, ['/'] + name, '\\', '/');
    ReplaceConcat(['/'], name, '\\', '/');
    assert dir + ['\\'] + name == dir + (['\\'] + name);
    assert dir + "/" + name == dir + (['/'] + name);
  }

  /** On Windows the stored path is the destination with separators normalised. */
  lemma WindowsPathNamesCopiedFile(dir: string, picked: string)
    ensures var name := Basename(Windows, picked);
            RelativePath(dir, name) == Replace(Join(Windows, dir, name), '\\', '/')
  {
    RelativePathIsNormalisedJoin(dir, Basename(Windows, picked));
  }

  /** On a POSIX host a backslash is an ordinary file-name character: the stored
      path equals the destination the file was copied to exactly when the name
      has no backslash. */
  lemma PosixPathNamesCopiedFileIff(dir: string, picked: string)
    requires '\\' !in dir
    ensures var name := Basename(Posix, picked);
            RelativePath(dir, name) == Join(Posix, dir, name) <==> '\\' !in name
  {
  }
}
