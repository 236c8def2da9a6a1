/**
 * The recovery's output: the directory tree it writes under the directory it
 * was started in, its current directory, and a log of the directory changes,
 * creations and warnings in order. Names are the UTF-8 bytes the recovery
 * produces; a path is the list of names below the starting directory.
 */
module Output {
  import opened Usuals

  type Name = seq<byte>
  type Path = seq<Name>

  /** The warnings the recovery prints before carrying on. */
  datatype Warning =
    | InvalidRecord       // a record with a bad magic or failed fixups
    | NoFileName          // in use, but without a usable name
    | BadParent           // the parent's index is not in the MFT map
    | NoDirectory         // neither entering nor creating the directory worked
    | NameTooLong         // no room left to number a duplicate name
    | CannotOpen          // every candidate name is taken
    | NoData              // no DATA attribute
    | ExtraRun            // a non-empty run after all the data was written
    | MissingData         // the runs ended before all the data was written
    | BadMftIndex(index: uint64)

  datatype Event = MadeDir(dir: Path) | Entered(dir: Path) | Created(file: Path) | Warned(w: Warning)

  datatype Fs = Fs(dirs: set<Path>, files: map<Path, seq<byte>>, cwd: Path, log: seq<Event>)

  /** The starting directory: empty, and current. */
  const Start := Fs({[]}, map[], [], [])

  /** A tree the recovery can be working in: the root and current directory exist, no path is both kinds. */
  predicate Valid(fs: Fs)
  {
    [] in fs.dirs && fs.cwd in fs.dirs && forall p :: p in fs.files ==> p !in fs.dirs
  }

  predicate Exists(fs: Fs, p: Path)
  {
    p in fs.dirs || p in fs.files
  }

  /** warnx: one more line in the log, nothing else. */
  function Warn(fs: Fs, w: Warning): (r: Fs)
    ensures r.log == fs.log + [Warned(w)]
    ensures r.dirs == fs.dirs && r.files == fs.files && r.cwd == fs.cwd
  {
    fs.(log := fs.log + [Warned(w)])
  }

  /** chdir(name), relative to the current directory: it works only into an existing directory. */
  function ChDir(fs: Fs, name: Name): (r: (bool, Fs))
    ensures r.0 <==> fs.cwd + [name] in fs.dirs
    ensures r.0 ==> r.1.cwd == fs.cwd + [name] && r.1.log == fs.log + [Entered(fs.cwd + [name])]
    ensures !r.0 ==> r.1 == fs
    ensures r.1.dirs == fs.dirs && r.1.files == fs.files
    ensures Valid(fs) ==> Valid(r.1)
  {
    var p := fs.cwd + [name];
    if p in fs.dirs then (true, fs.(cwd := p, log := fs.log + [Entered(p)])) else (false, fs)
  }

  /** mkdir(name): it fails when anything of that name exists already. */
  function MkDir(fs: Fs, name: Name): (r: (bool, Fs))
    ensures r.0 <==> !Exists(fs, fs.cwd + [name])
    ensures r.0 ==> r.1.dirs == fs.dirs + {fs.cwd + [name]} && r.1.log == fs.log + [MadeDir(fs.cwd + [name])]
    ensures !r.0 ==> r.1 == fs
    ensures r.1.files == fs.files && r.1.cwd == fs.cwd
    ensures Valid(fs) ==> Valid(r.1)
  {
    var p := fs.cwd + [name];
    if Exists(fs, p) then (false, fs) else (true, fs.(dirs := fs.dirs + {p}, log := fs.log + [MadeDir(p)]))
  }

  /** open(name, O_CREAT | O_EXCL): a new empty file, refused when the name is taken. */
  function Create(fs: Fs, name: Name): (r: (bool, Fs))
    ensures r.0 <==> !Exists(fs, fs.cwd + [name])
    ensures r.0 ==> r.1.files == fs.files[fs.cwd + [name] := []] && r.1.log == fs.log + [Created(fs.cwd + [name])]
    ensures !r.0 ==> r.1 == fs
    ensures r.1.dirs == fs.dirs && r.1.cwd == fs.cwd
    ensures Valid(fs) ==> Valid(r.1)
  {
    var p := fs.cwd + [name];
    if Exists(fs, p) then (false, fs) else (true, fs.(files := fs.files[p := []], log := fs.log + [Created(p)]))
  }

  /** write(): bytes appended to an open file. */
  function Append(fs: Fs, p: Path, data: seq<byte>): (r: Fs)
    requires p in fs.files
    ensures r.files == fs.files[p := fs.files[p] + data]
    ensures r.dirs == fs.dirs && r.cwd == fs.cwd && r.log == fs.log
    ensures Valid(fs) ==> Valid(r)
  {
    fs.(files := fs.files[p := fs.files[p] + data])
  }

  /** chdir back to a directory saved earlier with getcwd. */
  function Return(fs: Fs, dir: Path): (r: Fs)
    requires dir in fs.dirs
    ensures r.cwd == dir && r.log == fs.log + [Entered(dir)]
    ensures r.dirs == fs.dirs && r.files == fs.files
    ensures Valid(fs) ==> Valid(r)
  {
    fs.(cwd := dir, log := fs.log + [Entered(dir)])
  }

  /** What the recovery only ever adds to: directories, files (whose contents only grow) and the log. */
  predicate Grows(a: Fs, b: Fs)
  {
    a.dirs <= b.dirs && a.log <= b.log &&
    (forall p :: p in a.files ==> p in b.files && a.files[p] <= b.files[p])
  }

  lemma GrowsTransitive(a: Fs, b: Fs, c: Fs)
    requires Grows(a, b) && Grows(b, c)
    ensures Grows(a, c)
  {
    forall p | p in a.files
      ensures p in c.files && a.files[p] <= c.files[p]
    {
      assert a.files[p] <= b.files[p] <= c.files[p];
    }
  }
}
