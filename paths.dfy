/** Path construction, as POSIX os.path.join does it for two components. */
module Paths {

  /**
   * The path of `name` inside directory `dir`: an absolute `name` stands alone,
   * otherwise a separator is inserted unless `dir` is empty or already ends in one.
   */
  function Join(dir: string, name: string): (path: string)
    ensures dir == [] || (|name| > 0 && name[0] == '/') ==> path == name
  {
    if |name| > 0 && name[0] == '/' then name
    else if dir == [] || dir[|dir| - 1] == '/' then dir + name
    else dir + "/" + name
  }

  /**
   * The joined path ends with `name`, and a relative `name` is placed under `dir`:
   * the path starts with `dir` and has a separator between the two.
   */
  lemma JoinShape(dir: string, name: string)
    ensures var path := Join(dir, name);
            |path| >= |name| && path[|path| - |name|..] == name
    ensures (|name| == 0 || name[0] != '/') && dir != [] ==>
              var path := Join(dir, name);
              |dir| <= |path| && path[..|dir|] == dir && |path| > |name| && path[|path| - |name| - 1] == '/'
  {
  }
}
