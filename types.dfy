/** The GitHub entities of internal/github/types.go, as the rest of the core
    uses them (including the `Size` and `Ref` fields of a repository). */
module Types {

  /** A repository as returned by the REST API. `size` is zero for a
      repository with no commits; `ref` is the ref commit dates are read at. */
  datatype Repository = Repository(
    owner: string,
    name: string,
    fullName: string,
    defaultBranch: string,
    ref: string,
    fork: bool,
    archived: bool,
    mirrorUrl: string,
    size: int)

  /** One node of a recursive Git tree listing. */
  datatype TreeEntry = TreeEntry(path: string, mode: string, sha: string, size: int, url: string)

  /** The tree listing of one repository; `truncated` is set by the API when
      the tree exceeds its limits. */
  datatype TreeResponse = TreeResponse(sha: string, url: string, tree: seq<TreeEntry>, truncated: bool)

  /** The closed set of file classifications. */
  datatype FileType = File | Directory | Symlink | Executable | Submodule

  /** The four repository classifications a user can ask for. */
  datatype RepoType = Sources | Forks | Archives | Mirrors

  /** Which repository classifications to keep when expanding an owner. */
  datatype RepoTypes = RepoTypes(sources: bool, forks: bool, archives: bool, mirrors: bool)

  /** `RepoTypes{}.All()`: every classification selected. */
  const AllRepoTypes := RepoTypes(true, true, true, true)

  const NoRepoTypes := RepoTypes(false, false, false, false)

  /** The Git mode strings the API emits for each kind of tree entry. */
  const ModeDirectory := "040000"
  const ModeSymlink := "120000"
  const ModeSubmodule := "160000"
  const ModeExecutable := "100755"
  const ModeFile := "100644"
  const ModeGroupWritableFile := "100664"

  /** Classifies a tree entry by its Git mode string. Each special kind comes
      from exactly one mode; every other string, including the two regular
      file modes, the empty string and unknown modes, is a plain file. */
  function ParseFileType(mode: string): (t: FileType)
    ensures t == Directory <==> mode == ModeDirectory
    ensures t == Symlink <==> mode == ModeSymlink
    ensures t == Submodule <==> mode == ModeSubmodule
    ensures t == Executable <==> mode == ModeExecutable
    ensures t == File <==> mode !in {ModeDirectory, ModeSymlink, ModeSubmodule, ModeExecutable}
  {
    match mode
    case "040000" => Directory
    case "120000" => Symlink
    case "160000" => Submodule
    case "100755" => Executable
    case "100644" => File
    case "100664" => File
    case _ => File
  }
}
