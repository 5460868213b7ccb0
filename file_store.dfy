/** An abstract snapshot of the device file system as the application sees
    it through `expo-file-system`: which paths exist (directory or file, and
    the file size), the ordered child names of every readable directory, and
    the paths whose `getInfoAsync` throws. */
module FileStore {
  import opened Wrappers
  import opened Strings

  datatype Node = Node(isDirectory: bool, size: nat)

  datatype Store = Store(
    nodes: map<string, Node>,
    listings: map<string, seq<string>>,
    statFails: set<string>)

  /** What `getInfoAsync` resolves to. A missing path resolves (it does not
      throw) with `exists: false`, a falsy `isDirectory` and no size. */
  datatype Info = Info(present: bool, isDirectory: bool, size: Option<nat>)

  /** The platform never lists an empty name or one holding a `/`. */
  predicate Valid(fs: Store) {
    forall dir | dir in fs.listings :: forall name | name in fs.listings[dir] :: ValidName(name)
  }

  predicate ValidName(name: string) {
    name != "" && '/' !in name
  }

  /** `readDirectoryAsync(path)`: the child names, or an error when the path
      is not a readable directory. */
  function ReadDirectory(fs: Store, path: string): (r: Result<seq<string>>)
    ensures r.Ok? <==> path in fs.listings
    ensures r.Ok? ==> r.value == fs.listings[path]
  {
    if path in fs.listings then Ok(fs.listings[path]) else Error
  }

  /** `getInfoAsync(path)` */
  function GetInfo(fs: Store, path: string): (r: Result<Info>)
    ensures r.Error? <==> path in fs.statFails
    ensures r.Ok? ==> (r.value.present <==> path in fs.nodes)
    ensures r.Ok? && r.value.isDirectory ==> path in fs.nodes && fs.nodes[path].isDirectory
  {
    if path in fs.statFails then Error
    else if path in fs.nodes then
      var node := fs.nodes[path];
      Ok(Info(true, node.isDirectory, Some(node.size)))
    else Ok(Info(false, false, None))
  }

  /** `makeDirectoryAsync(path)` on a path that does not exist yet: the path
      becomes an empty, readable directory. */
  function MakeDirectory(fs: Store, path: string): (fs': Store)
    requires path !in fs.nodes
    ensures Valid(fs) ==> Valid(fs')
    ensures ReadDirectory(fs', path) == Ok([])
    ensures forall p :: p != path ==> ReadDirectory(fs', p) == ReadDirectory(fs, p)
    ensures path in fs'.nodes && fs'.nodes[path].isDirectory
  {
    Store(fs.nodes[path := Node(true, 0)], fs.listings[path := []], fs.statFails)
  }
}
