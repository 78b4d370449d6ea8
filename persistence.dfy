/** The `load` helper of mail.py. */
module Persistence {

  /** The argument `load` receives: a path string, or a list holding a path
      (the constructor wraps the allow-list path in a list). */
  datatype PathArg = PathText(text: string) | PathList(items: seq<string>)

  /** The exceptions the body of `load` can raise. */
  datatype LoadError = TypeError | FileNotFoundError | NameError(name: string)

  datatype LoadOutcome = Loaded(data: seq<string>) | LoadRaised(error: LoadError)

  /** `json.load` as mail.py sees it: the module imports smtplib, imaplib and
      email but never json, so the name lookup itself raises. */
  function JsonLoad(contents: string): LoadOutcome
  {
    LoadRaised(NameError("json"))
  }

  /** The `try` block of `load`: open the file (a list is not a path; a
      path `open` cannot read raises an OSError, FileNotFoundError when it is
      missing; every such OSError is written FileNotFoundError here, since
      `load` catches them all alike), then parse its contents. `files` maps each
      path `open` succeeds on to its text. */
  function TryLoad(path: PathArg, files: map<string, string>): (r: LoadOutcome)
    ensures r.LoadRaised?
    ensures path.PathList? ==> r == LoadRaised(TypeError)
    ensures path.PathText? && path.text !in files ==> r == LoadRaised(FileNotFoundError)
    ensures path.PathText? && path.text in files ==> r == LoadRaised(NameError("json"))
  {
    match path
    case PathList(_) => LoadRaised(TypeError)
    case PathText(p) =>
      if p !in files then LoadRaised(FileNotFoundError) else JsonLoad(files[p])
  }

  /** `load`: whatever the try block raises is caught and `[]` returned, so
      every call yields the empty list. */
  function Load(path: PathArg, files: map<string, string>): (r: seq<string>)
    ensures r == []
  {
    match TryLoad(path, files)
    case Loaded(data) => data
    case LoadRaised(_) => []
  }
}
